/** Names of resources: a bucket, an object of it, or a version of an object. */
module AclNames {
  import opened Acls
  import opened Strings

  function Name(info: ResourceInfo): string
  {
    if info.objectName == "" then info.bucket
    else if info.version == "" then info.bucket + "/" + info.objectName
    else info.bucket + "/" + info.objectName + ":" + info.version
  }

  function ResourceInfoFromName(name: string, bucket: string): ResourceInfo
  {
    if name == bucket then ResourceInfo(bucket, "", "")
    else FromParts(bucket, Split(TrimPrefix(name, bucket + "/"), ':'))
  }

  /** The last part is the version, unless there is only one. */
  function FromParts(bucket: string, parts: seq<string>): (r: ResourceInfo)
    requires parts != []
    ensures r.bucket == bucket
  {
    var last := |parts| - 1;
    if |parts| == 1 then ResourceInfo(bucket, parts[0], "")
    else if |parts| == 2 then ResourceInfo(bucket, parts[0], parts[1])
    else ResourceInfo(bucket, Join(parts[..last], ':'), parts[last])
  }

  /** The resources of a bucket whose names tell object and version apart. */
  predicate ReadableName(info: ResourceInfo, bucket: string)
  {
    && info.bucket == bucket
    && (info.objectName == "" ==> info.version == "")
    && (info.version == "" ==> ':' !in info.objectName)
    && ':' !in info.version
  }

  /** A name reads back exactly if it is such a name. */
  lemma NameReadsBack(info: ResourceInfo, bucket: string)
    ensures ResourceInfoFromName(Name(info), bucket) == info <==> ReadableName(info, bucket)
  {
    hide Split, Join, FromParts, TrimPrefix;
    if info.bucket == bucket && info.objectName != "" {
      var o, v := info.objectName, info.version;
      var rest := if v == "" then o else o + [':'] + v;
      assert Name(info) == (bucket + "/") + rest;
      assert |Name(info)| > |bucket|;
      TrimsPrefix(bucket + "/", rest);
      PartsReadBack(bucket, o, v, rest);
    }
  }

  lemma PartsReadBack(bucket: string, o: string, v: string, rest: string)
    requires o != "" && rest == if v == "" then o else o + [':'] + v
    ensures FromParts(bucket, Split(rest, ':')) == ResourceInfo(bucket, o, v) <==> (v == "" ==> ':' !in o) && ':' !in v
  {
    hide Split, Join;
    var parts := Split(rest, ':');
    if v == "" {
      hide FromParts;
      UnversionedReadsBack(bucket, o, parts);
    } else {
      VersionedName(o, v);
      if |parts| == 2 { OneJoined(parts); }
    }
  }

  lemma UnversionedReadsBack(bucket: string, o: string, parts: seq<string>)
    requires parts == Split(o, ':')
    ensures FromParts(bucket, parts) == ResourceInfo(bucket, o, "") <==> ':' !in o
  {
    hide Split, Join;
    UnversionedName(o);
  }

  lemma TrimsPrefix(p: string, rest: string)
    ensures TrimPrefix(p + rest, p) == rest
  {
  }

  lemma OneJoined(parts: seq<string>)
    requires |parts| == 2
    ensures Join(parts[..1], ':') == parts[0]
  {
  }

  lemma UnversionedName(name: string)
    ensures Split(name, ':') != []
    ensures |Split(name, ':')| == 1 <==> ':' !in name
    ensures ':' !in name ==> Split(name, ':') == [name]
    ensures |Split(name, ':')| > 2 ==> Split(name, ':')[|Split(name, ':')| - 1] == "" ==>
              Join(Split(name, ':')[..|Split(name, ':')| - 1], ':') != name
    ensures |Split(name, ':')| == 2 ==> Split(name, ':')[0] != name
  {
    hide Split, Join;
    JoinSplit(name, ':');
    var parts := Split(name, ':');
    if ':' !in name {
      SplitFirst(name, ':', "");
    } else {
      Separated(parts, ':');
      JoinSnoc(parts[..|parts| - 1], parts[|parts| - 1], ':');
      assert parts == parts[..|parts| - 1] + [parts[|parts| - 1]];
      OneLonger(parts);
    }
  }

  lemma OneLonger(parts: seq<string>)
    requires |parts| > 1
    ensures |parts| == 2 ==> |Join(parts, ':')| > |parts[0]|
  {
  }

  lemma JoinOne(parts: seq<string>, sep: char)
    requires parts != []
    ensures |parts| == 1 ==> Join(parts, sep) == parts[0]
  {
  }

  /** Components without the separator: only a single one joins to a string without it. */
  lemma Separated(parts: seq<string>, sep: char)
    requires parts != [] && sep in Join(parts, sep) && forall part :: part in parts ==> sep !in part
    ensures |parts| > 1
  {
    assert parts[0] in parts;
    JoinOne(parts, sep);
  }

  /** The last component is the version if that has no colon. */
  lemma VersionedName(objectName: string, version: string)
    ensures var parts := Split(objectName + [':'] + version, ':');
            && |parts| >= 2
            && (Join(parts[..|parts| - 1], ':') == objectName && parts[|parts| - 1] == version <==> ':' !in version)
  {
    var name := objectName + [':'] + version;
    var parts := Split(name, ':');
    JoinSplit(name, ':');
    assert name[|objectName|] == ':';
    Separated(parts, ':');
    assert parts[|parts| - 1] in parts;
    if ':' !in version {
      var front := Split(objectName, ':');
      JoinSplit(objectName, ':');
      JoinSnoc(front, version, ':');
      SplitJoin(front + [version], ':');
      assert (front + [version])[..|front|] == front;
    }
  }

  /** A request may name one resource twice: with a slash behind its bucket, and without. */
  lemma TwoNames(bucket: string)
    ensures ResourceInfoFromName(bucket + "/", bucket) == ResourceInfoFromName(bucket, bucket)
  {
    var name := bucket + "/";
    assert name[..|name|] == name && name[|name|..] == [];
    assert TrimPrefix(name, name) == "";
    assert Split("", ':') == [""];
  }
}
