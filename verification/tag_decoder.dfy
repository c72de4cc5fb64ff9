/** `decodecachetag`: a content cache tag split at '_' into a prefix, an
    optional workspace tag and a node type name or node identifier. The
    MD5 hash and the UUID test are parameters; the node lookup that follows a
    decoded identifier is not part of this model. */
module TagDecoder {
  import opened Optional
  import opened Strings
  import opened Explode

  /** The value of `ContentCache::TAG_EVERYTHING`. */
  const Everything: string := "Everything"

  const ValidPrefixes: seq<string> :=
    [Everything, "Node", "NodeType", "NodeDynamicTag", "DescendantOf", "AssetDynamicTag"]

  datatype Decoded =
    | InvalidPrefix(prefix: string)
    | FlushesEverything
    | Parts(prefix: string, workspaceName: Option<string>, nodeTypeName: Option<string>, nodeIdentifier: Option<string>)

  /** The workspace whose name hashes to the tag with its '%' padding
      trimmed, the first one in repository order when several do. */
  function WorkspaceFromTag(workspaceTag: string, workspaces: seq<string>, md5: string -> string): (r: Option<string>)
    ensures r.Some? ==> r.value in workspaces && md5(r.value) == Trim(workspaceTag, '%')
    ensures r.None? <==> forall w :: w in workspaces ==> md5(w) != Trim(workspaceTag, '%')
    ensures r.Some? ==> exists i :: (0 <= i < |workspaces| && workspaces[i] == r.value &&
              forall j :: 0 <= j < i ==> md5(workspaces[j]) != Trim(workspaceTag, '%'))
    decreases |workspaces|
  {
    if |workspaces| == 0 then None
    else if Trim(workspaceTag, '%') == md5(workspaces[0]) then Some(workspaces[0])
    else
      var r := WorkspaceFromTag(workspaceTag, workspaces[1..], md5);
      if r.Some? then
        var i :| 0 <= i < |workspaces| - 1 && workspaces[1..][i] == r.value &&
                 forall j :: 0 <= j < i ==> md5(workspaces[1..][j]) != Trim(workspaceTag, '%');
        assert workspaces[i + 1] == r.value;
        assert forall j :: 1 <= j < i + 1 ==> workspaces[j] == workspaces[1..][j - 1];
        r
      else r
  }

  /** The node identifier or node type name a tag part stands for. */
  function Classify(part: string, isUuid: string -> bool): (r: (Option<string>, Option<string>))
    ensures isUuid(part) ==> r == (None, Some(part))
    ensures !isUuid(part) ==> r == (Some(part), None)
  {
    if isUuid(part) then (None, Some(part)) else (Some(part), None)
  }

  /** Decodes a cache tag against the known workspaces. */
  function Decode(tag: string, isUuid: string -> bool, md5: string -> string, workspaces: seq<string>): (r: Decoded)
    ensures r.InvalidPrefix? <==> Split(tag, '_')[0] !in ValidPrefixes
    ensures r.InvalidPrefix? ==> r.prefix == Split(tag, '_')[0]
    ensures r.FlushesEverything? <==> Split(tag, '_')[0] == Everything
    ensures r.Parts? ==> r.prefix == Split(tag, '_')[0] && r.prefix in ValidPrefixes && r.prefix != Everything
    ensures r.Parts? && |Split(tag, '_')| == 2 ==>
              r.workspaceName.None? && (r.nodeTypeName, r.nodeIdentifier) == Classify(Split(tag, '_')[1], isUuid)
    ensures r.Parts? && |Split(tag, '_')| == 3 ==>
              r.workspaceName == WorkspaceFromTag(Split(tag, '_')[1], workspaces, md5) &&
              (r.nodeTypeName, r.nodeIdentifier) == Classify(Split(tag, '_')[2], isUuid)
    ensures r.Parts? && |Split(tag, '_')| != 2 && |Split(tag, '_')| != 3 ==>
              r.workspaceName.None? && r.nodeTypeName.None? && r.nodeIdentifier.None?
    ensures r.Parts? ==> (r.nodeTypeName.None? || r.nodeIdentifier.None?)
  {
    var parts := Split(tag, '_');
    var prefix := parts[0];
    if prefix !in ValidPrefixes then InvalidPrefix(prefix)
    else if prefix == Everything then FlushesEverything
    else if |parts| == 2 then
      var c := Classify(parts[1], isUuid);
      Parts(prefix, None, c.0, c.1)
    else if |parts| == 3 then
      var c := Classify(parts[2], isUuid);
      Parts(prefix, WorkspaceFromTag(parts[1], workspaces, md5), c.0, c.1)
    else Parts(prefix, None, None, None)
  }

  /** A tag as the content cache writes it: a prefix, optionally a workspace
      hash in '%' padding, and a node type name or node identifier, joined by
      '_'. */
  function EncodeTag(prefix: string, workspaceHash: Option<string>, name: string): string
  {
    match workspaceHash
    case None => prefix + "_" + name
    case Some(hash) => prefix + "_%" + hash + "%_" + name
  }

  /** A written tag splits back into its parts. */
  lemma SplitEncodeTag(prefix: string, workspaceHash: Option<string>, name: string)
    requires '_' !in prefix && '_' !in name
    requires workspaceHash.Some? ==> '_' !in workspaceHash.value
    ensures Split(EncodeTag(prefix, workspaceHash, name), '_') ==
            if workspaceHash.Some? then [prefix, "%" + workspaceHash.value + "%", name] else [prefix, name]
  {
    SplitNoDelimiter(name, '_');
    match workspaceHash {
      case None =>
        assert EncodeTag(prefix, workspaceHash, name) == prefix + ['_'] + name;
        SplitAtDelimiter(prefix, name, '_');
      case Some(hash) =>
        var padded := "%" + hash + "%";
        assert EncodeTag(prefix, workspaceHash, name) == prefix + ['_'] + (padded + ['_'] + name);
        SplitAtDelimiter(prefix, padded + ['_'] + name, '_');
        SplitAtDelimiter(padded, name, '_');
    }
  }

  lemma NoValidPrefixHasUnderscore()
    ensures forall p :: p in ValidPrefixes ==> '_' !in p
  {
  }

  /** Decoding a tag written with a valid prefix gives back its parts, and
      the workspace whose name alone hashes to the tag's hash. */
  lemma DecodeEncodeTag(prefix: string, workspaceHash: Option<string>, name: string, workspace: string,
                        isUuid: string -> bool, md5: string -> string, workspaces: seq<string>)
    requires prefix in ValidPrefixes && prefix != Everything
    requires '_' !in name
    requires workspaceHash.Some? ==> '_' !in workspaceHash.value && '%' !in workspaceHash.value
    requires workspaceHash.Some? ==> workspace in workspaces && md5(workspace) == workspaceHash.value
    requires workspaceHash.Some? ==> forall w :: w in workspaces && md5(w) == workspaceHash.value ==> w == workspace
    ensures var r := Decode(EncodeTag(prefix, workspaceHash, name), isUuid, md5, workspaces);
      && r.Parts?
      && r.prefix == prefix
      && r.workspaceName == (if workspaceHash.Some? then Some(workspace) else None)
      && (isUuid(name) ==> r.nodeIdentifier == Some(name) && r.nodeTypeName.None?)
      && (!isUuid(name) ==> r.nodeTypeName == Some(name) && r.nodeIdentifier.None?)
  {
    NoValidPrefixHasUnderscore();
    SplitEncodeTag(prefix, workspaceHash, name);
    if workspaceHash.Some? {
      var hash := workspaceHash.value;
      TrimPadded("%", hash, "%", '%');
      assert Trim("%" + hash + "%", '%') == hash;
    }
  }

  /** The decoder's four examples: a node type tag, an unknown prefix, the
      flush-everything tag, and a workspace-qualified identifier. */
  lemma DecodeNodeTypeTag(isUuid: string -> bool, md5: string -> string, workspaces: seq<string>)
    requires !isUuid("MyType")
    ensures Decode("NodeType_MyType", isUuid, md5, workspaces) == Parts("NodeType", None, Some("MyType"), None)
  {
    DecodeEncodeTag("NodeType", None, "MyType", "", isUuid, md5, workspaces);
    assert EncodeTag("NodeType", None, "MyType") == "NodeType_MyType";
  }

  /** A tag whose text before the first underscore (all of it, when there
      is none) is not one of the known prefixes is reported as invalid,
      whatever follows. */
  lemma DecodeUnknownPrefix(prefix: string, rest: string, isUuid: string -> bool, md5: string -> string,
                            workspaces: seq<string>)
    requires '_' !in prefix && prefix !in ValidPrefixes
    ensures Decode(prefix + "_" + rest, isUuid, md5, workspaces) == InvalidPrefix(prefix)
    ensures Decode(prefix, isUuid, md5, workspaces) == InvalidPrefix(prefix)
  {
    assert prefix + "_" + rest == prefix + ['_'] + rest;
    SplitAtDelimiter(prefix, rest, '_');
    SplitNoDelimiter(prefix, '_');
  }

  lemma DecodeFooBar(isUuid: string -> bool, md5: string -> string, workspaces: seq<string>)
    ensures Decode("Foo_bar", isUuid, md5, workspaces) == InvalidPrefix("Foo")
  {
    assert "Foo" !in ValidPrefixes by {
      assert forall p :: p in ValidPrefixes ==> |p| > 0 && p[0] != 'F';
    }
    assert "Foo_bar" == "Foo" + "_" + "bar";
    DecodeUnknownPrefix("Foo", "bar", isUuid, md5, workspaces);
  }

  lemma DecodeEverything(isUuid: string -> bool, md5: string -> string, workspaces: seq<string>)
    ensures Decode(Everything, isUuid, md5, workspaces) == FlushesEverything
  {
    SplitNoDelimiter(Everything, '_');
  }

  lemma DecodeDescendantOfLive(hash: string, uuid: string, isUuid: string -> bool, md5: string -> string,
                               workspaces: seq<string>)
    requires "live" in workspaces && md5("live") == hash
    requires '_' !in hash && '%' !in hash && '_' !in uuid && isUuid(uuid)
    requires forall w :: w in workspaces && md5(w) == hash ==> w == "live"
    ensures Decode("DescendantOf_%" + hash + "%_" + uuid, isUuid, md5, workspaces)
            == Parts("DescendantOf", Some("live"), None, Some(uuid))
  {
    DecodeEncodeTag("DescendantOf", Some(hash), uuid, "live", isUuid, md5, workspaces);
    assert EncodeTag("DescendantOf", Some(hash), uuid) == "DescendantOf_%" + hash + "%_" + uuid;
  }
}
