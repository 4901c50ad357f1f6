/**
 Listing the objects of a bucket page by page: collapsing keys to directories, dropping what was
 listed before, and going on from a marker or a continuation token.
 */
module Listing {
  import F = Forests
  import opened Sorting
  import opened Strings
  import opened Wrappers

  /** A version as the tree has it. */
  type NodeVersion = F.NodeVersion

  datatype ListedInfo = ListedInfo(id: string, name: string, isDir: bool)

  function InfoName(o: ListedInfo): string { o.name }

  datatype Params = Params(prefix: string, delimiter: string, maxKeys: nat, marker: string, token: string)

  /** Key that `existed` holds once the continuation token was met. */
  const TOKEN_MET := "<continuation-token>"

  // ---- directories ----

  /** The directory that a key is listed as; empty when it is listed as itself. */
  function TryDirectoryName(filePath: string, prefix: string, delimiter: string): string
  {
    if |delimiter| == 0 then ""
    else
      var tail := TrimPrefix(filePath, prefix);
      var index := Index(tail, delimiter);
      if index >= 0 then prefix + tail[..index + 1] else ""
  }

  /** The name a key is listed under. */
  function ListedName(filePath: string, prefix: string, delimiter: string): string
  {
    var dirName := TryDirectoryName(filePath, prefix, delimiter);
    if |dirName| != 0 then dirName else filePath
  }

  function InfoOf(node: NodeVersion, p: Params): ListedInfo
  {
    ListedInfo(node.oid, ListedName(node.filePath, p.prefix, p.delimiter),
      |TryDirectoryName(node.filePath, p.prefix, p.delimiter)| != 0)
  }

  /** What S3 lists a key as: rolled up to the first delimiter behind the prefix, delimiter included. */
  function RollUp(key: string, prefix: string, delimiter: string): string
    requires HasPrefix(key, prefix)
  {
    var index := IndexFrom(key, delimiter, |prefix|);
    if delimiter == "" || index < 0 then key else key[..index + |delimiter|]
  }

  lemma IndexAfterPrefix(prefix: string, tail: string, sub: string, from: nat)
    requires from <= |tail|
    ensures var i := IndexFrom(tail, sub, from);
            IndexFrom(prefix + tail, sub, |prefix| + from) == if i < 0 then -1 else |prefix| + i
    decreases |tail| - from
  {
    var s := prefix + tail;
    if from + |sub| <= |tail| {
      assert s[|prefix| + from..|prefix| + from + |sub|] == tail[from..from + |sub|];
    }
    if from < |tail| { IndexAfterPrefix(prefix, tail, sub, from + 1); }
  }

  /** The names are those of S3 exactly for delimiters of at most one character. */
  lemma NamesAreRollUps(prefix: string, delimiter: string)
    ensures (forall key :: HasPrefix(key, prefix) ==>
               ListedName(key, prefix, delimiter) == RollUp(key, prefix, delimiter)) <==> |delimiter| <= 1
  {
    if |delimiter| <= 1 {
      forall key | HasPrefix(key, prefix)
        ensures ListedName(key, prefix, delimiter) == RollUp(key, prefix, delimiter)
      {
        NameIsRollUp(key, prefix, delimiter);
      }
    } else {
      LongDelimiter(prefix, delimiter);
    }
  }

  lemma NameIsRollUp(key: string, prefix: string, delimiter: string)
    requires HasPrefix(key, prefix) && |delimiter| <= 1
    ensures ListedName(key, prefix, delimiter) == RollUp(key, prefix, delimiter)
  {
    var tail := key[|prefix|..];
    assert key == prefix + tail;
    IndexAfterPrefix(prefix, tail, delimiter, 0);
    var index := Index(tail, delimiter);
    if delimiter != "" && index >= 0 {
      assert key[..|prefix| + index + 1] == prefix + tail[..index + 1];
    }
  }

  /** A longer delimiter is cut off after its first character. */
  lemma LongDelimiter(prefix: string, delimiter: string)
    requires |delimiter| > 1
    ensures var key := prefix + delimiter;
            && HasPrefix(key, prefix)
            && RollUp(key, prefix, delimiter) == key
            && ListedName(key, prefix, delimiter) == prefix + delimiter[..1]
            && ListedName(key, prefix, delimiter) != key
  {
    var key := prefix + delimiter;
    assert key[|prefix|..] == delimiter;
    assert OccursAt(delimiter, delimiter, 0);
    assert Index(delimiter, delimiter) == 0;
    IndexAfterPrefix(prefix, delimiter, delimiter, 0);
    assert key[..|key|] == key;
  }

  /** A key without its prefix, up to the first character of the first `d`. */
  function Collapse(tail: string, d: string): string
    requires d != ""
  {
    if tail == "" then ""
    else if HasPrefix(tail, d) then tail[..1]
    else [tail[0]] + Collapse(tail[1..], d)
  }

  /** Delimiters with nothing between their first character and themselves. */
  predicate Tight(delimiter: string)
  {
    |delimiter| <= 1 || (|delimiter| == 2 && delimiter[1] == '\0')
  }

  lemma {:induction false} CollapseIsMonotone(a: string, b: string, d: string)
    requires Le(a, b) && d != "" && Tight(d)
    ensures Le(Collapse(a, d), Collapse(b, d))
  {
    if a != "" && a != b && a[0] == b[0] {
      if HasPrefix(b, d) {
        TightBelow(a, b, d);
      } else if !HasPrefix(a, d) {
        CollapseIsMonotone(a[1..], b[1..], d);
      }
    }
  }

  /** Nothing but the first character of a tight delimiter is smaller than what starts with the delimiter. */
  lemma TightBelow(a: string, b: string, d: string)
    requires d != "" && Tight(d) && HasPrefix(b, d) && a != "" && a[0] == b[0] && Le(a, b)
    ensures HasPrefix(a, d) || a == b[..1]
  {
    if |a| > 1 && |d| == 2 {
      assert Le(a[1..], b[1..]);
      assert a[1] >= '\0' && b[1] == '\0';
    }
  }

  lemma {:induction false} CollapseIsPrefix(tail: string, d: string, from: nat)
    requires from <= |tail| && d != ""
    ensures var i := IndexFrom(tail, d, from);
            Collapse(tail[from..], d) == if i < 0 then tail[from..] else tail[from..i + 1]
    decreases |tail| - from
  {
    if from < |tail| {
      CollapseOne(tail, d, from);
      CollapseIsPrefix(tail, d, from + 1);
      OneMoreChar(tail, from, IndexFrom(tail, d, from + 1));
      hide Collapse, OccursAt;
    }
  }

  lemma CollapseOne(tail: string, d: string, from: nat)
    requires from < |tail| && d != ""
    ensures Collapse(tail[from..], d) ==
            if OccursAt(tail, d, from) then tail[from..from + 1] else [tail[from]] + Collapse(tail[from + 1..], d)
  {
    var t := tail[from..];
    assert t[0] == tail[from] && t[1..] == tail[from + 1..] && t[..1] == tail[from..from + 1];
    assert OccursAt(tail, d, from) <==> HasPrefix(t, d);
  }

  lemma OneMoreChar(tail: string, from: nat, i: int)
    requires from < |tail|
    ensures [tail[from]] + tail[from + 1..] == tail[from..]
    ensures from < i < |tail| ==> [tail[from]] + tail[from + 1..i + 1] == tail[from..i + 1]
  {
  }

  /** Collapsing keeps the order of keys: no directory is met again once it is left. */
  lemma NamesAreMonotone(a: string, b: string, prefix: string, delimiter: string)
    requires HasPrefix(a, prefix) && HasPrefix(b, prefix) && Tight(delimiter)
    requires Le(a, b)
    ensures Le(ListedName(a, prefix, delimiter), ListedName(b, prefix, delimiter))
  {
    if delimiter != "" {
      var x, y := a[|prefix|..], b[|prefix|..];
      assert a == prefix + x && b == prefix + y;
      LtAfterPrefix(prefix, x, y);
      CollapseIsMonotone(x, y, delimiter);
      CollapsedName(x, prefix, delimiter);
      CollapsedName(y, prefix, delimiter);
      LtAfterPrefix(prefix, Collapse(x, delimiter), Collapse(y, delimiter));
    }
  }

  lemma CollapsedName(tail: string, prefix: string, d: string)
    requires d != ""
    ensures ListedName(prefix + tail, prefix, d) == prefix + Collapse(tail, d)
  {
    assert (prefix + tail)[|prefix|..] == tail && tail[0..] == tail;
    CollapseIsPrefix(tail, d, 0);
  }

  /** Collapsing keeps the order of all keys exactly for these delimiters. */
  lemma NamesKeepOrder(prefix: string, delimiter: string)
    ensures (forall a, b :: HasPrefix(a, prefix) && HasPrefix(b, prefix) && Le(a, b) ==>
               Le(ListedName(a, prefix, delimiter), ListedName(b, prefix, delimiter))) <==> Tight(delimiter)
  {
    if Tight(delimiter) {
      forall a, b | HasPrefix(a, prefix) && HasPrefix(b, prefix) && Le(a, b)
        ensures Le(ListedName(a, prefix, delimiter), ListedName(b, prefix, delimiter))
      {
        NamesAreMonotone(a, b, prefix, delimiter);
      }
    } else {
      LooseDelimiter(prefix, delimiter);
    }
  }

  /** What is between the first character of a delimiter and the delimiter. */
  function Between(delimiter: string): string
    requires !Tight(delimiter)
  {
    if |delimiter| == 2 then delimiter[..1] + "\0" else delimiter[..|delimiter| - 1]
  }

  /** A smaller key without the delimiter is listed behind the directory of a larger one. */
  lemma LooseDelimiter(prefix: string, delimiter: string)
    requires !Tight(delimiter)
    ensures Le(prefix + Between(delimiter), prefix + delimiter)
    ensures !Le(ListedName(prefix + Between(delimiter), prefix, delimiter),
                ListedName(prefix + delimiter, prefix, delimiter))
  {
    var x := Between(delimiter);
    BetweenIs(delimiter);
    LtAfterPrefix(prefix, x, delimiter);
    CollapsedName(x, prefix, delimiter);
    CollapsedName(delimiter, prefix, delimiter);
    LtAfterPrefix(prefix, x, delimiter[..1]);
    assert prefix + x != prefix + delimiter[..1];
  }

  lemma BetweenIs(d: string)
    requires !Tight(d)
    ensures Lt(Between(d), d) && !Le(Between(d), d[..1])
    ensures Collapse(Between(d), d) == Between(d) && Collapse(d, d) == d[..1]
  {
    var x := Between(d);
    assert Collapse(d, d) == d[..1];
    ShorterCollapse(x, d);
    hide Collapse;
    assert x[1..] != "" && d[..1][1..] == "" && !Lt(x[1..], "");
    assert !Lt(x, d[..1]) && |x| != |d[..1]|;
    if |d| > 2 {
      PrefixIsLess(d, |d| - 1);
    } else {
      assert x[1..] == "\0" && d[1..] == [d[1]] && d[1] > '\0';
      assert Lt(x[1..], d[1..]);
    }
  }

  lemma {:induction false} PrefixIsLess(d: string, n: nat)
    requires n < |d|
    ensures Lt(d[..n], d)
  {
    if n > 0 {
      assert d[..n][1..] == d[1..][..n - 1];
      PrefixIsLess(d[1..], n - 1);
    }
  }

  /** What does not contain a delimiter is not collapsed. */
  lemma {:induction false} ShorterCollapse(x: string, d: string)
    requires d != "" && forall i :: 0 <= i <= |x| ==> !HasPrefix(x[i..], d)
    ensures Collapse(x, d) == x
  {
    if x != "" {
      assert x[0..] == x;
      forall i | 0 <= i <= |x[1..]| ensures !HasPrefix(x[1..][i..], d) { assert x[1..][i..] == x[i + 1..]; }
      ShorterCollapse(x[1..], d);
    }
  }

  /** Such keys under a delimiter of two characters. */
  lemma OrderLostExample()
    ensures Le("xaa", "xab") && ListedName("xaa", "", "ab") == "xaa" && ListedName("xab", "", "ab") == "xa"
    ensures !Le(ListedName("xaa", "", "ab"), ListedName("xab", "", "ab"))
  {
    hide ListedName;
    CollapsedName("xaa", "", "ab");
    CollapsedName("xab", "", "ab");
    assert "xaa"[1..] == "aa" && "aa"[1..] == "a" && "a"[1..] == "" && "xab"[1..] == "ab" && "ab"[..1] == "a";
    assert Collapse("aa", "ab") == "aa" && Collapse("ab", "ab") == "a";
    assert "" + "xaa" == "xaa" && "" + "xab" == "xab";
  }

  // ---- what one request sends to the object workers ----

  function NameOf(node: NodeVersion, p: Params): string
  {
    ListedName(node.filePath, p.prefix, p.delimiter)
  }

  /** Whether a node is dropped, and what is recorded about it. */
  function Skip(node: NodeVersion, p: Params, existed: set<string>): (bool, set<string>)
  {
    if node.isDeleteMarker || NameOf(node, p) in existed || Le(NameOf(node, p), p.marker) then (true, existed)
    else if p.token != "" && TOKEN_MET !in existed then
      if p.token != node.oid then (true, existed)
      else (false, existed + {TOKEN_MET, NameOf(node, p)})
    else (false, existed + {NameOf(node, p)})
  }

  method ShouldSkip(node: NodeVersion, p: Params, existed: set<string>) returns (skip: bool, existed': set<string>)
    ensures (skip, existed') == Skip(node, p, existed)
  {
    existed' := existed;
    if node.isDeleteMarker {
      return true, existed';
    }
    var filePath := node.filePath;
    var dirName := TryDirectoryName(node.filePath, p.prefix, p.delimiter);
    if |dirName| != 0 {
      filePath := dirName;
    }
    if filePath in existed' {
      return true, existed';
    }
    if Le(filePath, p.marker) {
      return true, existed';
    }
    if p.token != "" {
      if TOKEN_MET !in existed' {
        if p.token != node.oid {
          return true, existed';
        }
        existed' := existed' + {TOKEN_MET};
      }
    }
    existed' := existed' + {filePath};
    skip := false;
    assert existed + {TOKEN_MET} + {filePath} == existed + {TOKEN_MET, filePath};
  }

  /** The nodes that are not dropped, at most `room` of them. */
  function Sent(nodes: seq<NodeVersion>, p: Params, existed: set<string>, room: nat): (r: seq<NodeVersion>)
    ensures |r| <= room && |r| <= |nodes|
  {
    if nodes == [] || room == 0 then []
    else
      var (skip, existed') := Skip(nodes[0], p, existed);
      if skip then Sent(nodes[1..], p, existed', room)
      else [nodes[0]] + Sent(nodes[1..], p, existed', room - 1)
  }

  lemma SentStep(nodes: seq<NodeVersion>, i: nat, p: Params, existed: set<string>, room: nat)
    requires i < |nodes| && room > 0
    ensures var (skip, existed') := Skip(nodes[i], p, existed);
            Sent(nodes[i..], p, existed, room) ==
            if skip then Sent(nodes[i + 1..], p, existed', room)
            else [nodes[i]] + Sent(nodes[i + 1..], p, existed', room - 1)
  {
    hide Skip;
    assert nodes[i..][1..] == nodes[i + 1..] && nodes[i..][0] == nodes[i];
  }

  /** One more node than fits a page is sent, to know whether and where to go on. */
  method NodesGenerator(p: Params, nodes: seq<NodeVersion>) returns (sent: seq<NodeVersion>)
    ensures sent == Sent(nodes, p, {}, p.maxKeys + 1)
  {
    hide Skip, Sent;
    sent := [];
    var existed: set<string> := {};
    var generated := 0;
    assert nodes[0..] == nodes;
    for i := 0 to |nodes|
      invariant generated == |sent| <= p.maxKeys
      invariant sent + Sent(nodes[i..], p, existed, p.maxKeys + 1 - generated) == Sent(nodes, p, {}, p.maxKeys + 1)
    {
      SentStep(nodes, i, p, existed, p.maxKeys + 1 - generated);
      var skip;
      skip, existed := ShouldSkip(nodes[i], p, existed);
      if !skip {
        JoinAgain(sent, nodes[i], Sent(nodes[i + 1..], p, existed, p.maxKeys - generated));
        sent := sent + [nodes[i]];
        generated := generated + 1;
        if generated == p.maxKeys + 1 {
          return;
        }
      }
    }
  }

  lemma JoinAgain(a: seq<NodeVersion>, n: NodeVersion, b: seq<NodeVersion>)
    ensures a + ([n] + b) == a + [n] + b
  {
  }

  function Infos(nodes: seq<NodeVersion>, p: Params): (r: seq<ListedInfo>)
    ensures |r| == |nodes|
    ensures forall i :: 0 <= i < |nodes| ==> r[i] == InfoOf(nodes[i], p)
  {
    if nodes == [] then [] else [InfoOf(nodes[0], p)] + Infos(nodes[1..], p)
  }

  /** The object workers answer in any order. */
  method WorkerPool(p: Params, sent: seq<NodeVersion>) returns (objects: seq<ListedInfo>)
    ensures multiset(objects) == multiset(Infos(sent, p))
  {
    objects := [];
    var waiting := Infos(sent, p);
    while waiting != []
      invariant multiset(objects) + multiset(waiting) == multiset(Infos(sent, p))
      decreases |waiting|
    {
      var i :| 0 <= i < |waiting|;
      assert waiting == waiting[..i] + [waiting[i]] + waiting[i + 1..];
      objects := objects + [waiting[i]];
      waiting := waiting[..i] + waiting[i + 1..];
    }
  }

  /** Names once sent are not sent again. */
  lemma {:induction false} SentNamesDiffer(nodes: seq<NodeVersion>, p: Params, existed: set<string>, room: nat)
    ensures var infos := Infos(Sent(nodes, p, existed, room), p);
            Differing(InfoName, infos) && forall o :: o in infos ==> o.name !in existed
    decreases |nodes|
  {
    hide Differing;
    if nodes == [] || room == 0 {
      NoNames();
    } else {
      var (skip, existed') := Skip(nodes[0], p, existed);
      SentNamesDiffer(nodes[1..], p, existed', if skip then room else room - 1);
      if !skip {
        var rest := Infos(Sent(nodes[1..], p, existed', room - 1), p);
        assert Infos(Sent(nodes, p, existed, room), p) == [InfoOf(nodes[0], p)] + rest;
        assert NameOf(nodes[0], p) in existed' && existed <= existed';
        OneMoreName(InfoOf(nodes[0], p), rest, existed');
      }
    }
  }

  lemma NoNames()
    ensures Differing(InfoName, [])
  {
  }

  lemma OneMoreName(o: ListedInfo, rest: seq<ListedInfo>, existed: set<string>)
    requires Differing(InfoName, rest) && o.name in existed && forall x :: x in rest ==> x.name !in existed
    ensures Differing(InfoName, [o] + rest)
  {
    assert forall i :: 0 <= i < |rest| ==> rest[i] in rest;
  }

  /**
   The objects of one request over the nodes of the store and, if there are more, the first that does
   not fit.
   */
  function Page(nodes: seq<NodeVersion>, p: Params): (seq<ListedInfo>, Option<ListedInfo>)
  {
    if p.maxKeys == 0 then ([], None)
    else
      var objects := Sort(InfoName, Infos(Sent(Sort(F.NodePath, nodes), p, {}, p.maxKeys + 1), p));
      if |objects| > p.maxKeys then (objects[..p.maxKeys], Some(objects[p.maxKeys])) else (objects, None)
  }

  /** One request: whatever the order in which the workers answer, the page is the same. */
  method GetLatestObjectsVersions(p: Params, nodes: seq<NodeVersion>)
    returns (objects: seq<ListedInfo>, next: Option<ListedInfo>)
    ensures (objects, next) == Page(nodes, p)
  {
    hide Differing, Sort, Infos, Sent;
    if p.maxKeys == 0 {
      return [], None;
    }
    var nodeVersions := Sort(F.NodePath, nodes);
    var sent := NodesGenerator(p, nodeVersions);
    var arrived := WorkerPool(p, sent);
    SentNamesDiffer(nodeVersions, p, {}, p.maxKeys + 1);
    ArrivalOrderIsLost(InfoName, Infos(sent, p), arrived);
    objects := Sort(InfoName, arrived);
    next := None;
    if |objects| > p.maxKeys {
      next := Some(objects[p.maxKeys]);
      objects := objects[..p.maxKeys];
    }
  }

  /** What a page answers; `names` are those of its directories and objects together, in order. */
  datatype ListResult = ListResult(names: seq<string>, prefixes: seq<string>, objects: seq<ListedInfo>,
                                   isTruncated: bool, nextMarker: string, nextToken: string)

  function Names(objects: seq<ListedInfo>): (r: seq<string>)
    ensures |r| == |objects|
    ensures forall i :: 0 <= i < |objects| ==> r[i] == objects[i].name
  {
    if objects == [] then [] else [objects[0].name] + Names(objects[1..])
  }

  /** The directories (`dirs`) or the objects among what a page has. */
  function Only(all: seq<ListedInfo>, dirs: bool): (r: seq<ListedInfo>)
    ensures forall o :: o in r <==> o in all && o.isDir == dirs
  {
    if all == [] then []
    else
      var last := |all| - 1;
      assert forall o :: o in all <==> o in all[..last] || o == all[last];
      Only(all[..last], dirs) + if all[last].isDir == dirs then [all[last]] else []
  }

  lemma OnlySnoc(rest: seq<ListedInfo>, o: ListedInfo, dirs: bool)
    ensures Only(rest + [o], dirs) == Only(rest, dirs) + if o.isDir == dirs then [o] else []
  {
    assert (rest + [o])[..|rest|] == rest;
  }

  lemma {:induction false} OnlyJoin(a: seq<ListedInfo>, b: seq<ListedInfo>, dirs: bool)
    ensures Only(a + b, dirs) == Only(a, dirs) + Only(b, dirs)
  {
    hide Only;
    if b == [] {
      assert a + b == a;
      NothingOnly();
    } else {
      var rest, o := b[..|b| - 1], b[|b| - 1];
      OnlyJoin(a, rest, dirs);
      assert a + b == a + rest + [o] && b == rest + [o];
      OnlySnoc(a + rest, o, dirs);
      OnlySnoc(rest, o, dirs);
    }
  }

  lemma NamesJoin(a: seq<ListedInfo>, b: seq<ListedInfo>)
    ensures Names(a + b) == Names(a) + Names(b)
  {
    hide Names;
    var all := a + b;
    forall i | 0 <= i < |all| ensures Names(all)[i] == (Names(a) + Names(b))[i] {
      if i < |a| { assert all[i] == a[i]; } else { assert all[i] == b[i - |a|]; }
    }
  }

  method TriageObjects(all: seq<ListedInfo>) returns (prefixes: seq<string>, objects: seq<ListedInfo>)
    ensures prefixes == Names(Only(all, true)) && objects == Only(all, false)
  {
    prefixes, objects := [], [];
    for k := 0 to |all|
      invariant prefixes == Names(Only(all[..k], true)) && objects == Only(all[..k], false)
    {
      assert all[..k + 1][..k] == all[..k];
      NamesAppend(Only(all[..k], true), all[k]);
      if all[k].isDir {
        prefixes := prefixes + [all[k].name];
      } else {
        objects := objects + [all[k]];
      }
    }
    assert all[..|all|] == all;
  }

  lemma {:induction false} NamesAppend(objects: seq<ListedInfo>, o: ListedInfo)
    ensures Names(objects + [o]) == Names(objects) + [o.name] && objects + [] == objects
  {
  }

  /** Splitting a page loses nothing and adds nothing. */
  lemma {:induction false} TriageKeepsAll(all: seq<ListedInfo>)
    ensures multiset(all) == multiset(Only(all, true)) + multiset(Only(all, false))
  {
    hide Only;
    if all == [] {
      NothingOnly();
    } else {
      var last := |all| - 1;
      TriageKeepsAll(all[..last]);
      OneMore(all);
      assert all == all[..last] + [all[last]];
    }
  }

  lemma NothingOnly()
    ensures Only([], true) == Only([], false) == []
  {
  }

  lemma OneMore(all: seq<ListedInfo>)
    requires all != []
    ensures var rest, o := all[..|all| - 1], all[|all| - 1];
            && multiset(Only(all, o.isDir)) == multiset(Only(rest, o.isDir)) + multiset{o}
            && Only(all, !o.isDir) == Only(rest, !o.isDir)
  {
  }

  /** Directories and objects of a page in order are each in order. */
  lemma {:induction false} TriageKeepsOrder(all: seq<ListedInfo>, dirs: bool)
    requires Increasing(InfoName, all)
    ensures Increasing(InfoName, Only(all, dirs))
  {
    hide Lt;
    if all != [] {
      var last := |all| - 1;
      var rest := all[..last];
      assert Increasing(InfoName, rest) by {
        forall i, j | 0 <= i < j < |rest| ensures Lt(InfoName(rest[i]), InfoName(rest[j])) {}
      }
      TriageKeepsOrder(rest, dirs);
      OrderedSnoc(all, rest, Only(rest, dirs));
    }
  }

  lemma OrderedSnoc(all: seq<ListedInfo>, rest: seq<ListedInfo>, only: seq<ListedInfo>)
    requires Increasing(InfoName, all) && all != [] && rest == all[..|all| - 1]
    requires Increasing(InfoName, only) && forall o :: o in only ==> o in rest
    ensures Increasing(InfoName, only + [all[|all| - 1]]) && only + [] == only
  {
    hide Lt;
    var last := all[|all| - 1];
    forall i | 0 <= i < |only| ensures Lt(InfoName(only[i]), InfoName(last)) {
      assert only[i] in rest;
      var k :| 0 <= k < |rest| && rest[k] == only[i];
      assert all[k] == only[i];
    }
  }

  /** Version 1 goes on behind the last name of the page. */
  method ListObjectsV1(p: Params, nodes: seq<NodeVersion>) returns (r: ListResult)
    requires p.token == ""
    ensures var (objects, next) := Page(nodes, p);
            && r.names == Names(objects) && (r.isTruncated <==> next.Some?)
            && r.prefixes == Names(Only(objects, true)) && r.objects == Only(objects, false)
            && (next.Some? ==> objects != [] && r.nextMarker == objects[|objects| - 1].name)
  {
    var objects, next := GetLatestObjectsVersions(p, nodes);
    var prefixes, keys := TriageObjects(objects);
    r := ListResult(Names(objects), prefixes, keys, false, "", "");
    if next.Some? {
      r := r.(isTruncated := true, nextMarker := objects[|objects| - 1].name);
    }
  }

  /** Version 2 goes on with the first node that did not fit; `marker` is what to start after. */
  method ListObjectsV2(p: Params, nodes: seq<NodeVersion>) returns (r: ListResult)
    ensures var (objects, next) := Page(nodes, p);
            && r.names == Names(objects) && (r.isTruncated <==> next.Some?)
            && r.prefixes == Names(Only(objects, true)) && r.objects == Only(objects, false)
            && (next.Some? ==> r.nextToken == next.value.id)
  {
    var objects, next := GetLatestObjectsVersions(p, nodes);
    var prefixes, keys := TriageObjects(objects);
    r := ListResult(Names(objects), prefixes, keys, false, "", "");
    if next.Some? {
      r := r.(isTruncated := true, nextToken := next.value.id);
    }
  }
}
