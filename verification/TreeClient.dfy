/**
 The client of the tree service: looking up object versions by path and by prefix, and adding and
 removing them.
 */
module TreeClients {
  import opened Forests
  import opened Strings
  import opened TreeServices

  datatype Lookup = Found(id: nat) | NotFound | TooMany

  ghost predicate NoDuplicates<T>(s: seq<T>)
  {
    forall i, j :: 0 <= i < j < |s| ==> s[i] != s[j]
  }

  lemma NoDuplicatesConcat<T>(a: seq<T>, b: seq<T>)
    requires NoDuplicates(a) && NoDuplicates(b) && forall x :: x in a ==> x !in b
    ensures NoDuplicates(a + b)
  {
    forall i, j | 0 <= i < j < |a + b| ensures (a + b)[i] != (a + b)[j] {
      if i < |a| <= j { assert a[i] in a && b[j - |a|] in b; }
    }
  }

  /** Concatenates the lists of a map in any order. */
  method Flatten<T(==)>(lists: map<string, seq<T>>) returns (r: seq<T>)
    requires forall k :: k in lists ==> NoDuplicates(lists[k])
    requires forall k, l, x :: k in lists && l in lists && x in lists[k] && x in lists[l] ==> k == l
    ensures NoDuplicates(r)
    ensures forall x :: x in r <==> exists k :: k in lists && x in lists[k]
  {
    r := [];
    var left := lists.Keys;
    while left != {}
      invariant left <= lists.Keys && NoDuplicates(r)
      invariant forall x :: x in r <==> exists k :: k in lists && k !in left && x in lists[k]
      decreases left
    {
      var key :| key in left;
      NoDuplicatesConcat(r, lists[key]);
      r := r + lists[key];
      left := left - {key};
    }
  }

  // ---- which nodes with one name are kept ----

  /** Adds a node to those of its name: with `latestOnly`, of the leaves only the youngest is kept, in front. */
  function AddNode(nodes: seq<Node>, node: Node, latestOnly: bool): seq<Node>
  {
    if |nodes| == 0 then [node]
    else if !latestOnly || IsIntermediate(node) then nodes + [node]
    else if IsIntermediate(nodes[0]) then [node] + nodes
    else if node.timestamp > nodes[0].timestamp then nodes[0 := node]
    else nodes
  }

  /** Of all nodes with a name, the directories and the youngest leaf; or all of them. */
  ghost predicate Chosen(n: Node, all: set<Node>, latestOnly: bool)
  {
    n in all && (latestOnly && !IsIntermediate(n) ==>
      forall m :: m in all && !IsIntermediate(m) ==> m.timestamp <= n.timestamp)
  }

  ghost predicate LeavesDiffer(all: set<Node>)
  {
    forall m, n :: m in all && n in all && !IsIntermediate(m) && !IsIntermediate(n) && m != n ==>
      m.timestamp != n.timestamp
  }

  ghost predicate Kept(kept: seq<Node>, all: set<Node>, latestOnly: bool)
  {
    && NoDuplicates(kept)
    && (forall n :: n in kept <==> Chosen(n, all, latestOnly))
    && (latestOnly ==>
         && (forall i :: 0 < i < |kept| ==> IsIntermediate(kept[i]))
         && ((exists n :: n in all && !IsIntermediate(n)) ==> kept != [] && !IsIntermediate(kept[0])))
  }

  lemma KeptStep(kept: seq<Node>, all: set<Node>, node: Node, latestOnly: bool)
    requires Kept(kept, all, latestOnly) && node !in all && LeavesDiffer(all + {node})
    requires kept == [] <==> all == {}
    ensures Kept(AddNode(kept, node, latestOnly), all + {node}, latestOnly)
  {
    var more := AddNode(kept, node, latestOnly);
    if kept == [] {
    } else if !latestOnly || IsIntermediate(node) {
      assert forall n :: n in kept ==> n in all;
      forall n ensures n in more <==> Chosen(n, all + {node}, latestOnly) {
        if n != node {
          assert n in more <==> n in kept;
          assert Chosen(n, all, latestOnly) == Chosen(n, all + {node}, latestOnly);
        }
      }
    } else if IsIntermediate(kept[0]) {
      assert forall n :: n in kept ==> n in all;
      forall n ensures n in more <==> Chosen(n, all + {node}, latestOnly) {
        if n != node { assert n in more <==> n in kept; }
      }
    } else {
      LeafStep(kept, all, node);
    }
  }

  lemma LeafStep(kept: seq<Node>, all: set<Node>, node: Node)
    requires Kept(kept, all, true) && node !in all && LeavesDiffer(all + {node})
    requires kept != [] && !IsIntermediate(kept[0]) && !IsIntermediate(node)
    ensures Kept(AddNode(kept, node, true), all + {node}, true)
  {
    var more, first := AddNode(kept, node, true), kept[0];
    assert first in kept;
    assert Chosen(first, all, true);
    forall n ensures n in more <==> Chosen(n, all + {node}, true) {
      if node.timestamp > first.timestamp {
        assert more == [node] + kept[1..];
        assert n in kept <==> n == first || n in kept[1..];
        if n in kept[1..] {
          assert n in kept;
          assert IsIntermediate(n);
        }
      } else {
        assert n in more <==> n in kept;
      }
    }
    if node.timestamp > first.timestamp {
      assert forall n :: n in kept ==> n in all;
      NoDuplicatesConcat([node], kept[1..]);
      assert more == [node] + kept[1..];
    }
  }

  // ---- which versions with one key are kept ----

  /** Adds a version to those of its key: with `latestOnly`, a version that is not older replaces the other. */
  function AddVersionNode(kept: seq<NodeVersion>, v: NodeVersion, latestOnly: bool): seq<NodeVersion>
  {
    if |kept| == 0 then [v]
    else if !latestOnly then kept + [v]
    else if kept[0].timestamp <= v.timestamp then kept[0 := v]
    else kept
  }

  ghost predicate ChosenVersion(v: NodeVersion, all: set<NodeVersion>, latestOnly: bool)
  {
    v in all && (latestOnly ==> forall w :: w in all ==> w.timestamp <= v.timestamp)
  }

  ghost predicate KeptVersions(kept: seq<NodeVersion>, all: set<NodeVersion>, latestOnly: bool)
  {
    && NoDuplicates(kept)
    && (forall v :: v in kept <==> ChosenVersion(v, all, latestOnly))
    && (kept == [] <==> all == {})
    && (latestOnly ==> |kept| <= 1)
  }

  lemma KeptVersionsStep(kept: seq<NodeVersion>, all: set<NodeVersion>, v: NodeVersion, latestOnly: bool)
    requires KeptVersions(kept, all, latestOnly) && v !in all
    requires forall w :: w in all ==> w.timestamp != v.timestamp
    ensures KeptVersions(AddVersionNode(kept, v, latestOnly), all + {v}, latestOnly)
  {
    var more := AddVersionNode(kept, v, latestOnly);
    if kept == [] {
    } else if !latestOnly {
      assert forall w :: w in kept ==> w in all;
    } else {
      var k, m := kept[0], more[0];
      assert kept == [k] && more == [m];
      assert k in kept;
      assert k.timestamp != v.timestamp;
      forall w ensures ChosenVersion(w, all + {v}, true) <==> w == m {
        assert m in all + {v} && v in all + {v};
        if ChosenVersion(w, all + {v}, true) {
          assert m.timestamp <= w.timestamp <= m.timestamp;
          if w != v {
            assert ChosenVersion(w, all, true);
            assert w in kept;
          }
        }
      }
      forall w ensures w in more <==> ChosenVersion(w, all + {v}, latestOnly) {}
    }
  }

  /** The versions of one name in one directory have one key, and only they. */
  function FormLatestNodeKey(parent: nat, fileName: string): string
  {
    Decimal(parent) + "." + fileName
  }

  lemma KeyIdentifies(p: nat, a: string, q: nat, b: string)
    ensures FormLatestNodeKey(p, a) == FormLatestNodeKey(q, b) <==> p == q && a == b
  {
    DecimalHasNo(p, '.');
    DecimalHasNo(q, '.');
    SplitAtDot(Decimal(p), a);
    SplitAtDot(Decimal(q), b);
    DecimalRoundTrip(p);
    DecimalRoundTrip(q);
  }

  lemma SplitAtDot(a: string, b: string)
    requires '.' !in a
    ensures var s := a + "." + b; FirstOf(s, '.') == |a| && s[..|a|] == a && s[|a| + 1..] == b
  {
    FirstOfIs(a, '.', b);
    assert a + "." + b == a + ['.'] + b;
  }

  // ---- heads of prefixes ----

  /** A prefix up to and including its last separator. */
  function Head(prefix: seq<string>): string
    requires prefix != []
  {
    if |prefix| == 1 then "" else Join(prefix[..|prefix| - 1], SEPARATOR) + [SEPARATOR]
  }

  lemma HeadAndTail(prefix: string)
    ensures var p := Split(prefix, SEPARATOR); prefix == Head(p) + p[|p| - 1]
  {
    var p := Split(prefix, SEPARATOR);
    JoinSplit(prefix, SEPARATOR);
    if |p| > 1 {
      JoinSnoc(p[..|p| - 1], p[|p| - 1], SEPARATOR);
      assert p[..|p| - 1] + [p[|p| - 1]] == p;
    }
  }

  lemma TopPath(f: Forest, c: nat, prefix: seq<string>)
    requires WellFormed(f) && prefix != [] && Top(f, c, prefix)
    ensures Path(f, c) == Head(prefix) + FileName(f[c])
  {
    var comps, k := Comps(f, c), |prefix| - 1;
    assert comps == prefix[..k] + [FileName(f[c])];
    if k > 0 {
      JoinSnoc(prefix[..k], FileName(f[c]), SEPARATOR);
    }
  }

  function TrimSuffix(s: string, suffix: string): string
  {
    if |suffix| <= |s| && s[|s| - |suffix|..] == suffix then s[..|s| - |suffix|] else s
  }

  /** Trimming one separator and adding it again changes nothing: heads end with one. */
  lemma HeadIsTrimmed(prefix: seq<string>)
    requires prefix != [] && Head(prefix) != ""
    ensures TrimSuffix(Head(prefix), [SEPARATOR]) + [SEPARATOR] == Head(prefix)
  {
    var h := Head(prefix);
    assert h[|h| - 1..] == [SEPARATOR];
  }

  lemma PathBelow(f: Forest, id: nat)
    requires WellFormed(f) && id in f && HasName(f[id]) && f[id].parent != 0
    ensures f[id].parent in f && HasName(f[f[id].parent])
    ensures Path(f, id) == Path(f, f[id].parent) + [SEPARATOR] + FileName(f[id])
  {
    CompsOf(f, id);
    JoinSnoc(Comps(f, f[id].parent), FileName(f[id]), SEPARATOR);
  }

  class TreeClient {
    const service: TreeService

    constructor (service: TreeService)
      ensures this.service == service
    {
      this.service := service;
    }

    /** The directory with a path. */
    ghost predicate DirectoryAt(f: Forest, id: nat, path: seq<string>)
      requires WellFormed(f)
    {
      id in f && IsIntermediate(f[id]) && HasName(f[id]) && Comps(f, id) == path
    }

    /** Looks the directory with a path up; there is never more than one. */
    method GetPrefixNodeID(prefixPath: seq<string>) returns (r: Lookup)
      requires service.Valid()
      ensures r != TooMany
      ensures r.Found? ==> DirectoryAt(service.forest, r.id, prefixPath)
      ensures r.NotFound? ==> forall id :: !DirectoryAt(service.forest, id, prefixPath)
    {
      var nodes := service.GetNodeByPath(prefixPath);
      var intermediateNodes: seq<nat> := [];
      for i := 0 to |nodes|
        invariant intermediateNodes == IntermediateIds(nodes[..i])
      {
        assert nodes[..i + 1][..i] == nodes[..i];
        if IsIntermediate(nodes[i]) {
          intermediateNodes := intermediateNodes + [nodes[i].id];
        }
      }
      assert nodes[..|nodes|] == nodes;
      OneDirectory(service.forest, nodes, prefixPath);
      if |intermediateNodes| == 0 {
        return NotFound;
      }
      if |intermediateNodes| > 1 {
        return TooMany;
      }
      return Found(intermediateNodes[0]);
    }

    static function IntermediateIds(nodes: seq<Node>): seq<nat>
    {
      if nodes == [] then []
      else IntermediateIds(nodes[..|nodes| - 1]) +
           if IsIntermediate(nodes[|nodes| - 1]) then [nodes[|nodes| - 1].id] else []
    }

    lemma {:induction false} IntermediatesAmong(nodes: seq<Node>)
      requires forall i, j :: 0 <= i < j < |nodes| ==> !(IsIntermediate(nodes[i]) && IsIntermediate(nodes[j]))
      ensures var ids := IntermediateIds(nodes);
              && |ids| <= 1
              && (ids == [] ==> forall n :: n in nodes ==> !IsIntermediate(n))
              && (ids != [] ==> exists n :: n in nodes && IsIntermediate(n) && n.id == ids[0])
    {
      if nodes != [] {
        var last, rest := nodes[|nodes| - 1], nodes[..|nodes| - 1];
        assert nodes == rest + [last];
        IntermediatesAmong(rest);
      }
    }

    lemma OneDirectory(f: Forest, nodes: seq<Node>, path: seq<string>)
      requires WellFormed(f) && Answer(f, nodes)
      requires forall n :: n in nodes <==> n.id in f && n == f[n.id] && HasName(n) && Comps(f, n.id) == path
      ensures var ids := IntermediateIds(nodes);
              && (ids == [] ==> forall id :: !DirectoryAt(f, id, path))
              && (ids != [] ==> |ids| == 1 && DirectoryAt(f, ids[0], path))
    {
      hide WellFormed, Comps;
      var ids := IntermediateIds(nodes);
      forall i, j | 0 <= i < j < |nodes| ensures !(IsIntermediate(nodes[i]) && IsIntermediate(nodes[j])) {
        assert nodes[i] in nodes && nodes[j] in nodes;
        if IsIntermediate(nodes[i]) && IsIntermediate(nodes[j]) {
          DirectoryUnique(f, nodes[i].id, nodes[j].id);
        }
      }
      IntermediatesAmong(nodes);
      forall id | DirectoryAt(f, id, path) ensures f[id] in nodes { IdOf(f, id); }
    }

    lemma IdOf(f: Forest, id: nat)
      requires WellFormed(f) && id in f
      ensures f[id].id == id && id != 0
    {
      assert Hangs(f, id);
    }

    /** The directory that a prefix names, and what names in it start with. */
    method DeterminePrefixNode(prefix: string) returns (r: Lookup, tailPrefix: string)
      requires service.Valid()
      ensures r != TooMany
      ensures var p := Split(prefix, SEPARATOR);
              && tailPrefix == p[|p| - 1]
              && (r.Found? && |p| == 1 ==> r.id == 0)
              && (r.Found? && |p| > 1 ==> DirectoryAt(service.forest, r.id, p[..|p| - 1]))
              && (r.NotFound? ==> forall c :: !Top(service.forest, c, p))
    {
      var path := Split(prefix, SEPARATOR);
      tailPrefix := path[|path| - 1];
      r := Found(0);
      if |path| > 1 {
        r := GetPrefixNodeID(path[..|path| - 1]);
        if r.NotFound? {
          forall c ensures !Top(service.forest, c, path) {
            if Top(service.forest, c, path) { DirectoryAbove(service.forest, c, path); }
          }
        }
      }
    }

    lemma DirectoryAbove(f: Forest, c: nat, p: seq<string>)
      requires WellFormed(f) && p != [] && Top(f, c, p)
      ensures |p| == 1 ==> f[c].parent == 0
      ensures |p| > 1 ==> DirectoryAt(f, f[c].parent, p[..|p| - 1])
    {
      CompsOf(f, c);
      assert Comps(f, c)[..|p| - 1] == ParentComps(f, f[c].parent);
    }

    /** The top nodes of a prefix are the children of its directory whose names start with its tail. */
    lemma TopIsChild(f: Forest, rootID: nat, c: nat, p: seq<string>)
      requires WellFormed(f) && p != []
      requires if |p| == 1 then rootID == 0 else DirectoryAt(f, rootID, p[..|p| - 1])
      ensures Top(f, c, p) <==>
                c in f && f[c].parent == rootID && HasName(f[c]) && HasPrefix(FileName(f[c]), p[|p| - 1])
    {
      hide Shaped;
      if Top(f, c, p) {
        DirectoryAbove(f, c, p);
        if |p| > 1 { DirectoryUnique(f, rootID, f[c].parent); }
      }
      if c in f && f[c].parent == rootID && HasName(f[c]) {
        CompsOf(f, c);
        assert Hangs(f, c);
        assert Comps(f, c) == p[..|p| - 1] + [FileName(f[c])];
        assert Comps(f, c)[..|p| - 1] == p[..|p| - 1];
      }
    }

    /** The top nodes of a prefix that are kept, with the path of the directory they are in. */
    method GetSubTreeByPrefix(prefix: string, latestOnly: bool) returns (nodes: seq<Node>, headPrefix: string)
      requires service.Valid()
      ensures NoDuplicates(nodes)
      ensures forall n :: n in nodes <==> Chosen'(service.forest, n, Split(prefix, SEPARATOR), latestOnly)
      ensures nodes != [] ==> headPrefix == Head(Split(prefix, SEPARATOR))
    {
      ghost var f, p := service.forest, Split(prefix, SEPARATOR);
      var r, tailPrefix := DeterminePrefixNode(prefix);
      if !r.Found? {
        NothingChosen(f, p, latestOnly);
        return [], "";
      }
      var rootID := r.id;
      var subTree := service.GetChildren(rootID);
      var nodesMap: map<string, seq<Node>> := map[];
      ghost var seen: set<Node> := {};
      hide WellFormed, Comps, Top, Kept, Answer, MapKept, Matching;
      RootFirst(f, subTree, rootID, p);
      MapEmpty(subTree, rootID, tailPrefix, latestOnly);
      for i := 0 to |subTree|
        invariant seen == Matching(subTree[..i], rootID, tailPrefix)
        invariant MapKept(nodesMap, seen, latestOnly)
      {
        MatchingStep(subTree, i, rootID, tailPrefix);
        var node := subTree[i];
        if node.id == rootID {
          continue;
        }
        var fileName := FileName(node);
        if !HasPrefix(fileName, tailPrefix) {
          continue;
        }
        var named := if fileName in nodesMap then nodesMap[fileName] else [];
        SeenBefore(f, subTree, i, rootID, tailPrefix);
        MapStep(f, nodesMap, seen, node, rootID, latestOnly);
        seen := seen + {node};
        nodesMap := nodesMap[fileName := AddNode(named, node, latestOnly)];
      }
      assert subTree[..|subTree|] == subTree;
      MapFlat(nodesMap, seen, latestOnly);
      nodes := Flatten(nodesMap);
      AllMatching(f, subTree, rootID, p, latestOnly);
      HeadAndTail(prefix);
      headPrefix := TrimSuffix(prefix, tailPrefix);
    }

    /** The named nodes in a directory. */
    ghost predicate ChildNode(f: Forest, n: Node, rootID: nat)
    {
      n.id in f && f[n.id] == n && n.parent == rootID && HasName(n) && n.id != rootID
    }

    /** The answer for a directory lists itself and then its children, all of them named. */
    ghost predicate ChildList(f: Forest, nodes: seq<Node>, rootID: nat)
    {
      && nodes != [] && nodes[0].id == rootID
      && (forall i :: 0 < i < |nodes| ==> ChildNode(f, nodes[i], rootID))
      && (forall i, j :: 0 < i < j < |nodes| ==> nodes[i].id != nodes[j].id)
      && (forall n :: ChildNode(f, n, rootID) ==> n in nodes)
    }

    lemma RootFirst(f: Forest, nodes: seq<Node>, rootID: nat, p: seq<string>)
      requires WellFormed(f) && p != []
      requires if |p| == 1 then rootID == 0 else DirectoryAt(f, rootID, p[..|p| - 1])
      requires nodes != [] && nodes[0] == (if rootID == 0 then ROOT else f[rootID])
      requires Answer(f, nodes[1..])
      requires forall n :: n in nodes[1..] <==> n.id in f && n == f[n.id] && n.parent == rootID
      ensures ChildList(f, nodes, rootID)
    {
      if rootID != 0 { IdOf(f, rootID); }
      hide Comps;
      forall i | 0 < i < |nodes| ensures ChildNode(f, nodes[i], rootID) {
        assert nodes[i] == nodes[1..][i - 1];
        assert nodes[i] in nodes[1..];
        var id := nodes[i].id;
        assert Hangs(f, id) && Shaped(f, id);
      }
      forall i, j | 0 < i < j < |nodes| ensures nodes[i].id != nodes[j].id {
        assert nodes[i] == nodes[1..][i - 1] && nodes[j] == nodes[1..][j - 1];
      }
    }

    lemma MapEmpty(nodes: seq<Node>, rootID: nat, tailPrefix: string, latestOnly: bool)
      ensures Matching(nodes[..0], rootID, tailPrefix) == {} && MapKept(map[], {}, latestOnly)
    {
    }

    /** A node of the list has not been seen before its turn, and what has been seen are children. */
    lemma SeenBefore(f: Forest, nodes: seq<Node>, i: nat, rootID: nat, tailPrefix: string)
      requires ChildList(f, nodes, rootID) && i < |nodes| && nodes[i].id != rootID
      ensures nodes[i] !in Matching(nodes[..i], rootID, tailPrefix) && ChildNode(f, nodes[i], rootID)
      ensures forall n :: n in Matching(nodes[..i], rootID, tailPrefix) ==> ChildNode(f, n, rootID)
    {
      forall n | n in Matching(nodes[..i], rootID, tailPrefix) ensures ChildNode(f, n, rootID) && n != nodes[i] {
        var j :| 0 <= j < i && nodes[j] == n;
      }
    }

    lemma MapStep(f: Forest, m: map<string, seq<Node>>, seen: set<Node>, node: Node, rootID: nat, latestOnly: bool)
      requires WellFormed(f) && MapKept(m, seen, latestOnly) && node !in seen && ChildNode(f, node, rootID)
      requires forall n :: n in seen ==> ChildNode(f, n, rootID)
      ensures var k := FileName(node);
              MapKept(m[k := AddNode(if k in m then m[k] else [], node, latestOnly)], seen + {node}, latestOnly)
    {
      var k := FileName(node);
      var named := if k in m then m[k] else [];
      var all := Named(seen, k);
      assert Named(seen + {node}, k) == all + {node};
      NamedDiffer(f, all + {node}, k, rootID);
      hide WellFormed;
      if k !in m { assert all == {}; EmptyKept(latestOnly); } else { KeptNonEmpty(named, all, latestOnly); }
      KeptStep(named, all, node, latestOnly);
      MapSet(m, seen, node, AddNode(named, node, latestOnly), latestOnly);
    }

    /** Putting the kept nodes of one name into the map. */
    lemma MapSet(m: map<string, seq<Node>>, seen: set<Node>, node: Node, named: seq<Node>, latestOnly: bool)
      requires MapKept(m, seen, latestOnly) && named != []
      requires Kept(named, Named(seen + {node}, FileName(node)), latestOnly)
      ensures MapKept(m[FileName(node) := named], seen + {node}, latestOnly)
    {
      hide Kept;
      var k := FileName(node);
      var m' := m[k := named];
      forall l | l != k ensures Named(seen + {node}, l) == Named(seen, l) {}
    }

    lemma EmptyKept(latestOnly: bool)
      ensures Kept([], {}, latestOnly)
    {
    }

    lemma KeptNonEmpty(kept: seq<Node>, all: set<Node>, latestOnly: bool)
      requires Kept(kept, all, latestOnly) && kept != []
      ensures all != {}
    {
      assert kept[0] in kept;
    }

    lemma NamedDiffer(f: Forest, all: set<Node>, k: string, rootID: nat)
      requires WellFormed(f) && forall n :: n in all ==> ChildNode(f, n, rootID) && FileName(n) == k
      ensures LeavesDiffer(all)
    {
      forall a, b | a in all && b in all && !IsIntermediate(a) && !IsIntermediate(b) && a != b
        ensures a.timestamp != b.timestamp
      {
        assert Hangs(f, a.id) && Hangs(f, b.id);
        assert Shaped(f, a.id) && Shaped(f, b.id);
        assert Siblings(f[a.id], f[b.id]);
      }
    }

    lemma MapFlat(m: map<string, seq<Node>>, seen: set<Node>, latestOnly: bool)
      requires MapKept(m, seen, latestOnly)
      ensures forall k :: k in m ==> NoDuplicates(m[k])
      ensures forall k, l, x :: k in m && l in m && x in m[k] && x in m[l] ==> k == l
      ensures forall n :: (exists k :: k in m && n in m[k]) <==>
                n in seen && Chosen(n, Named(seen, FileName(n)), latestOnly)
    {
      forall k, n | k in m && n in m[k] ensures FileName(n) == k && n in seen && Chosen(n, Named(seen, k), latestOnly) {
      }
    }

    lemma AllMatching(f: Forest, nodes: seq<Node>, rootID: nat, p: seq<string>, latestOnly: bool)
      requires WellFormed(f) && p != [] && ChildList(f, nodes, rootID)
      requires if |p| == 1 then rootID == 0 else DirectoryAt(f, rootID, p[..|p| - 1])
      ensures var seen := Matching(nodes, rootID, p[|p| - 1]);
              forall n :: (n in seen && Chosen(n, Named(seen, FileName(n)), latestOnly)) <==>
                Chosen'(f, n, p, latestOnly)
    {
      hide Shaped, Comps;
      var seen := Matching(nodes, rootID, p[|p| - 1]);
      forall n ensures n in seen <==> Top(f, n.id, p) && n == f[n.id] {
        TopIsChild(f, rootID, n.id, p);
        if Top(f, n.id, p) && n == f[n.id] {
          IdOf(f, n.id);
          NotOwnParent(f, n.id);
          assert ChildNode(f, n, rootID);
        }
        if n in seen {
          var i :| 0 <= i < |nodes| && nodes[i] == n;
          assert i > 0;
        }
      }
      forall n | n in seen
        ensures Chosen(n, Named(seen, FileName(n)), latestOnly) <==> Chosen'(f, n, p, latestOnly)
      {
        ChosenAmong(f, n, seen, p, latestOnly);
      }
    }

    lemma NotOwnParent(f: Forest, id: nat)
      requires WellFormed(f) && id in f
      ensures f[id].parent != id
    {
      assert Hangs(f, id);
    }

    lemma ChosenAmong(f: Forest, n: Node, seen: set<Node>, p: seq<string>, latestOnly: bool)
      requires WellFormed(f) && p != [] && n in seen
      requires forall m :: m in seen <==> Top(f, m.id, p) && m == f[m.id]
      ensures Chosen(n, Named(seen, FileName(n)), latestOnly) <==> Chosen'(f, n, p, latestOnly)
    {
      hide Shaped, Comps;
      var all := Named(seen, FileName(n));
      if Chosen(n, all, latestOnly) && latestOnly && !IsIntermediate(n) {
        forall id | id in f && HasName(f[id]) && Siblings(f[id], n) && !IsIntermediate(f[id])
          ensures f[id].timestamp <= n.timestamp
        {
          IdOf(f, id);
          SiblingIsTop(f, n.id, id, p);
          assert f[id] in all;
        }
      }
      if Chosen'(f, n, p, latestOnly) && latestOnly && !IsIntermediate(n) {
        forall m | m in all && !IsIntermediate(m) ensures m.timestamp <= n.timestamp {
          SiblingOfTop(f, n.id, m.id, p);
        }
      }
    }

    lemma SiblingIsTop(f: Forest, a: nat, b: nat, p: seq<string>)
      requires WellFormed(f) && p != [] && Top(f, a, p) && b in f && HasName(f[b]) && Siblings(f[a], f[b])
      ensures Top(f, b, p)
    {
      CompsOf(f, a);
      CompsOf(f, b);
      assert Comps(f, a) == Comps(f, b);
    }

    lemma SiblingOfTop(f: Forest, a: nat, b: nat, p: seq<string>)
      requires WellFormed(f) && p != [] && Top(f, a, p) && Top(f, b, p) && FileName(f[a]) == FileName(f[b])
      ensures Siblings(f[a], f[b])
    {
      DirectoryAbove(f, a, p);
      DirectoryAbove(f, b, p);
      if |p| > 1 { DirectoryUnique(f, f[a].parent, f[b].parent); }
    }

    /** A top node that is kept: with `latestOnly`, no leaf if a younger leaf has its name. */
    ghost predicate Chosen'(f: Forest, n: Node, p: seq<string>, latestOnly: bool)
      requires WellFormed(f) && p != []
    {
      && Top(f, n.id, p) && n == f[n.id]
      && (latestOnly && !IsIntermediate(n) ==>
           forall id :: id in f && HasName(f[id]) && Siblings(f[id], n) && !IsIntermediate(f[id]) ==>
             f[id].timestamp <= n.timestamp)
    }

    lemma NothingChosen(f: Forest, p: seq<string>, latestOnly: bool)
      requires WellFormed(f) && p != [] && forall c :: !Top(f, c, p)
      ensures forall n :: !Chosen'(f, n, p, latestOnly)
    {
    }

    /** The nodes seen so far that are children of the directory and match the tail of the prefix. */
    ghost function Matching(nodes: seq<Node>, rootID: nat, tailPrefix: string): set<Node>
    {
      set n | n in nodes && n.id != rootID && HasPrefix(FileName(n), tailPrefix)
    }

    lemma MatchingStep(nodes: seq<Node>, i: nat, rootID: nat, tailPrefix: string)
      requires i < |nodes|
      ensures Matching(nodes[..i + 1], rootID, tailPrefix) ==
              Matching(nodes[..i], rootID, tailPrefix) +
              if nodes[i].id != rootID && HasPrefix(FileName(nodes[i]), tailPrefix) then {nodes[i]} else {}
    {
      assert nodes[..i + 1] == nodes[..i] + [nodes[i]];
    }

    ghost function Named(seen: set<Node>, fileName: string): set<Node>
    {
      set n | n in seen && FileName(n) == fileName
    }

    ghost predicate MapKept(m: map<string, seq<Node>>, seen: set<Node>, latestOnly: bool)
    {
      && (forall n :: n in seen ==> FileName(n) in m)
      && (forall k :: k in m ==> m[k] != [] && Kept(m[k], Named(seen, k), latestOnly))
    }

    /** The versions at and below a node. */
    ghost predicate VersionBelow(f: Forest, root: nat, v: NodeVersion)
      requires WellFormed(f)
    {
      v.id in f && IsVersion(f[v.id]) && InTree(f, root, v.id) && v == NewNodeVersion(Path(f, v.id), f[v.id])
    }

    /** Of these, the ones that are reported: with `latestOnly`, the youngest of its path if it is no delete marker. */
    ghost predicate Reported(f: Forest, root: nat, v: NodeVersion, latestOnly: bool)
      requires WellFormed(f)
    {
      && VersionBelow(f, root, v)
      && (latestOnly ==> !v.isDeleteMarker)
      && (latestOnly ==>
            forall w :: VersionBelow(f, root, w) && w.filePath == v.filePath ==> w.timestamp <= v.timestamp)
    }

    ghost predicate VersionsMapKept(m: map<string, seq<NodeVersion>>, seen: set<NodeVersion>, latestOnly: bool)
    {
      && (forall v :: v in seen ==> KeyOf(v) in m)
      && (forall k :: k in m ==> m[k] != [] && KeptVersions(m[k], Keyed(seen, k), latestOnly))
    }

    /** The key of a version: its directory and the last component of its path. */
    static ghost function KeyOf(v: NodeVersion): string
    {
      var parts := Split(v.filePath, SEPARATOR);
      FormLatestNodeKey(v.parenID, parts[|parts| - 1])
    }

    static ghost function Keyed(seen: set<NodeVersion>, k: string): set<NodeVersion>
    {
      set v | v in seen && KeyOf(v) == k
    }

    lemma KeyOfNode(f: Forest, id: nat)
      requires WellFormed(f) && id in f && HasName(f[id])
      ensures KeyOf(NewNodeVersion(Path(f, id), f[id])) == FormLatestNodeKey(f[id].parent, FileName(f[id]))
    {
      SplitJoin(Comps(f, id), SEPARATOR);
    }

    /** Two versions have one key exactly if they have one path. */
    lemma KeyIsPath(f: Forest, a: nat, b: nat)
      requires WellFormed(f) && a in f && b in f && HasName(f[a]) && HasName(f[b])
      ensures KeyOf(NewNodeVersion(Path(f, a), f[a])) == KeyOf(NewNodeVersion(Path(f, b), f[b])) <==>
                Path(f, a) == Path(f, b)
    {
      KeyOfNode(f, a);
      KeyOfNode(f, b);
      KeyIdentifies(f[a].parent, FileName(f[a]), f[b].parent, FileName(f[b]));
      SamePath(f, a, b);
    }

    /** The versions among the nodes seen so far. */
    ghost function SeenVersions(f: Forest, nodes: seq<Node>): set<NodeVersion>
      requires WellFormed(f)
    {
      set n | n in nodes && n.id in f && f[n.id] == n && IsVersion(n) :: NewNodeVersion(Path(f, n.id), n)
    }

    ghost predicate NamesKnown(f: Forest, nodes: seq<Node>, namesMap: map<nat, string>)
      requires WellFormed(f)
    {
      forall n :: n in nodes && n.id in f && f[n.id] == n && HasName(n) ==>
        n.id in namesMap && namesMap[n.id] == Path(f, n.id)
    }

    /** The path of a listed node: the first is named by the caller, the others follow their directory. */
    method FilePathOf(node: Node, i: nat, parentPrefix: string, namesMap: map<nat, string>,
                      ghost f: Forest, ghost nodes: seq<Node>, ghost rootID: nat)
      returns (filepath: string, ok: bool)
      requires WellFormed(f) && rootID in f && Listing(f, nodes, rootID) && i < |nodes| && node == nodes[i]
      requires node.id in f && f[node.id] == node && HasName(node) && NamesKnown(f, nodes[..i], namesMap)
      requires HasName(f[rootID]) && Path(f, rootID) == parentPrefix + FileName(f[rootID])
      ensures ok && filepath == Path(f, node.id)
    {
      hide WellFormed, Comps, InTree, Listing, NamesKnown, Path;
      var fileName := FileName(node);
      if i != 0 {
        ParentKnown(f, nodes, i, rootID, namesMap);
        if node.parent !in namesMap {
          return "", false;
        }
        filepath := namesMap[node.parent] + [SEPARATOR] + fileName;
      } else {
        ListingFirst(f, nodes, rootID);
        filepath := parentPrefix + fileName;
      }
      ok := true;
    }

    /** The versions of the sub-tree of a node, their paths put together from those of their directories. */
    method GetSubTreeVersions(nodeID: nat, parentFilePath: string, latestOnly: bool, ghost p: seq<string>)
      returns (result: seq<NodeVersion>, ok: bool)
      requires service.Valid() && p != [] && Top(service.forest, nodeID, p) && parentFilePath == Head(p)
      ensures ok && NoDuplicates(result)
      ensures forall v :: v in result <==> Reported(service.forest, nodeID, v, latestOnly)
    {
      var parentPrefix := "";
      if parentFilePath != "" {
        HeadIsTrimmed(p);
        parentPrefix := TrimSuffix(parentFilePath, [SEPARATOR]) + [SEPARATOR];
      }
      TopPath(service.forest, nodeID, p);
      var versions: map<string, seq<NodeVersion>>;
      ghost var subTree;
      versions, ok, subTree := CollectVersions(nodeID, parentPrefix, latestOnly);
      hide WellFormed, Comps, Top, InTree, Listing, VersionsMapKept, SeenVersions, Path, Reported, Head;
      var live := map k | k in versions && !(latestOnly && |versions[k]| > 0 && versions[k][0].isDeleteMarker) ::
        versions[k];
      LiveVersions(service.forest, subTree, nodeID, versions, live, latestOnly);
      result := Flatten(live);
    }

    /** Goes through the sub-tree of a node and keeps the versions to report by their keys. */
    method CollectVersions(nodeID: nat, parentPrefix: string, latestOnly: bool)
      returns (versions: map<string, seq<NodeVersion>>, ok: bool, ghost nodes: seq<Node>)
      requires service.Valid() && nodeID in service.forest && HasName(service.forest[nodeID])
      requires Path(service.forest, nodeID) == parentPrefix + FileName(service.forest[nodeID])
      ensures ok && Listing(service.forest, nodes, nodeID)
      ensures forall id :: id in service.forest && InTree(service.forest, nodeID, id) ==> service.forest[id] in nodes
      ensures VersionsMapKept(versions, SeenVersions(service.forest, nodes), latestOnly)
    {
      hide WellFormed, Comps, InTree, Listing, VersionsMapKept, NamesKnown, SeenVersions, Path;
      var subTree := service.GetSubTree(nodeID);
      nodes := subTree;
      var namesMap: map<nat, string> := map[];
      versions := map[];
      ListingFirst(service.forest, subTree, nodeID);
      for i := 0 to |subTree|
        invariant NamesKnown(service.forest, subTree[..i], namesMap)
        invariant VersionsMapKept(versions, SeenVersions(service.forest, subTree[..i]), latestOnly)
      {
        namesMap, versions, ok := VisitNode(subTree, i, nodeID, parentPrefix, latestOnly, namesMap, versions,
                                            service.forest);
        if !ok {
          return;
        }
      }
      assert subTree[..|subTree|] == subTree;
      ok := true;
    }

    /** Records the path of one listed node and, if it is a version, keeps or drops it. */
    method VisitNode(nodes: seq<Node>, i: nat, ghost rootID: nat, parentPrefix: string, latestOnly: bool,
                     namesMap: map<nat, string>, versions: map<string, seq<NodeVersion>>, ghost f: Forest)
      returns (namesMap': map<nat, string>, versions': map<string, seq<NodeVersion>>, ok: bool)
      requires WellFormed(f) && rootID in f && Listing(f, nodes, rootID) && i < |nodes|
      requires HasName(f[rootID]) && Path(f, rootID) == parentPrefix + FileName(f[rootID])
      requires NamesKnown(f, nodes[..i], namesMap)
      requires VersionsMapKept(versions, SeenVersions(f, nodes[..i]), latestOnly)
      ensures ok
      ensures NamesKnown(f, nodes[..i + 1], namesMap')
      ensures VersionsMapKept(versions', SeenVersions(f, nodes[..i + 1]), latestOnly)
    {
      hide WellFormed, Comps, InTree, Listing, VersionsMapKept, NamesKnown, SeenVersions, Path;
      namesMap', versions', ok := namesMap, versions, true;
      var node := nodes[i];
      SeenStep(f, nodes, i, rootID);
      NamesStep(f, nodes, i, rootID, namesMap);
      if !HasName(node) {
        return;
      }
      var filepath;
      filepath, ok := FilePathOf(node, i, parentPrefix, namesMap, f, nodes, rootID);
      if !ok {
        return;
      }
      namesMap' := namesMap[node.id := filepath];
      if Oid(node) == "" {
        return;
      }
      var key := FormLatestNodeKey(node.parent, FileName(node));
      VersionsStep(f, nodes, i, rootID, versions, latestOnly);
      versions' := versions[key :=
        AddVersionNode(if key in versions then versions[key] else [], NewNodeVersion(filepath, node), latestOnly)];
    }

    lemma NamesStep(f: Forest, nodes: seq<Node>, i: nat, rootID: nat, namesMap: map<nat, string>)
      requires WellFormed(f) && rootID in f && Listing(f, nodes, rootID) && i < |nodes|
      requires NamesKnown(f, nodes[..i], namesMap)
      requires nodes[i].id in f && f[nodes[i].id] == nodes[i]
      ensures !HasName(nodes[i]) ==> NamesKnown(f, nodes[..i + 1], namesMap)
      ensures HasName(nodes[i]) ==> NamesKnown(f, nodes[..i + 1], namesMap[nodes[i].id := Path(f, nodes[i].id)])
    {
      hide WellFormed, Comps, InTree, Path, Listing;
      assert nodes[..i + 1] == nodes[..i] + [nodes[i]];
    }

    lemma ListingFirst(f: Forest, nodes: seq<Node>, rootID: nat)
      requires WellFormed(f) && rootID in f && Listing(f, nodes, rootID)
      ensures nodes != [] && nodes[0] == f[rootID] && f[rootID].id == rootID
      ensures NamesKnown(f, nodes[..0], map[]) && VersionsMapKept(map[], SeenVersions(f, nodes[..0]), true)
      ensures VersionsMapKept(map[], SeenVersions(f, nodes[..0]), false)
    {
      IdOf(f, rootID);
      hide WellFormed, Comps, InTree, Path;
    }

    lemma SeenStep(f: Forest, nodes: seq<Node>, i: nat, rootID: nat)
      requires WellFormed(f) && rootID in f && Listing(f, nodes, rootID) && i < |nodes|
      ensures nodes[i].id in f && f[nodes[i].id] == nodes[i]
      ensures forall n :: n in nodes[..i + 1] <==> n in nodes[..i] || n == nodes[i]
      ensures SeenVersions(f, nodes[..i + 1]) ==
              SeenVersions(f, nodes[..i]) +
              if IsVersion(nodes[i]) then {NewNodeVersion(Path(f, nodes[i].id), nodes[i])} else {}
      ensures !IsVersion(nodes[i]) ==> SeenVersions(f, nodes[..i + 1]) == SeenVersions(f, nodes[..i])
    {
      hide WellFormed, Comps, InTree;
      assert nodes[..i + 1] == nodes[..i] + [nodes[i]];
    }

    /** The path of a node below the first is that of its directory, which came earlier, and its name. */
    lemma ParentKnown(f: Forest, nodes: seq<Node>, i: nat, rootID: nat, namesMap: map<nat, string>)
      requires WellFormed(f) && rootID in f && Listing(f, nodes, rootID) && 0 < i < |nodes|
      requires nodes[i].id in f && f[nodes[i].id] == nodes[i] && HasName(nodes[i])
      requires NamesKnown(f, nodes[..i], namesMap)
      ensures nodes[i].parent in namesMap
      ensures Path(f, nodes[i].id) == namesMap[nodes[i].parent] + [SEPARATOR] + FileName(nodes[i])
    {
      hide WellFormed, Comps, InTree, Hangs, Shaped;
      var parent := nodes[i].parent;
      assert HasEarlier(nodes, i, parent);
      var j :| 0 <= j < i && nodes[j].id == parent;
      assert nodes[j] in nodes[..i];
      IdOf(f, parent);
      PathBelow(f, nodes[i].id);
    }

    lemma VersionsStep(f: Forest, nodes: seq<Node>, i: nat, rootID: nat, m: map<string, seq<NodeVersion>>,
                       latestOnly: bool)
      requires WellFormed(f) && rootID in f && Listing(f, nodes, rootID) && i < |nodes|
      requires nodes[i].id in f && f[nodes[i].id] == nodes[i] && IsVersion(nodes[i])
      requires VersionsMapKept(m, SeenVersions(f, nodes[..i]), latestOnly)
      ensures var v := NewNodeVersion(Path(f, nodes[i].id), nodes[i]);
              var k := FormLatestNodeKey(nodes[i].parent, FileName(nodes[i]));
              VersionsMapKept(m[k := AddVersionNode(if k in m then m[k] else [], v, latestOnly)],
                SeenVersions(f, nodes[..i]) + {v}, latestOnly)
    {
      var seen := SeenVersions(f, nodes[..i]);
      var v := NewNodeVersion(Path(f, nodes[i].id), nodes[i]);
      var k := FormLatestNodeKey(nodes[i].parent, FileName(nodes[i]));
      KeyOfNode(f, nodes[i].id);
      NotSeen(f, nodes, i, rootID, v);
      hide WellFormed, Listing, SeenVersions, KeyOf;
      KeyedStep(m, seen, v, k, latestOnly);
    }

    /** A node of the listing is new when it comes, and no version of its path is equally old. */
    lemma NotSeen(f: Forest, nodes: seq<Node>, i: nat, rootID: nat, v: NodeVersion)
      requires WellFormed(f) && rootID in f && Listing(f, nodes, rootID) && i < |nodes|
      requires nodes[i].id in f && f[nodes[i].id] == nodes[i] && IsVersion(nodes[i])
      requires v == NewNodeVersion(Path(f, nodes[i].id), nodes[i])
      ensures v !in SeenVersions(f, nodes[..i])
      ensures forall w :: w in SeenVersions(f, nodes[..i]) && KeyOf(w) == KeyOf(v) ==> w.timestamp != v.timestamp
    {
      hide Comps, InTree, Hangs, Shaped, KeyOf;
      forall w | w in SeenVersions(f, nodes[..i])
        ensures w != v && (KeyOf(w) == KeyOf(v) ==> w.timestamp != v.timestamp)
      {
        var n :| n in nodes[..i] && n.id in f && f[n.id] == n && IsVersion(n) && w == NewNodeVersion(Path(f, n.id), n);
        var j :| 0 <= j < i && nodes[j] == n;
        IdOf(f, n.id);
        KeyIsPath(f, n.id, nodes[i].id);
        SamePath(f, n.id, nodes[i].id);
      }
    }

    lemma KeyedStep(m: map<string, seq<NodeVersion>>, seen: set<NodeVersion>, v: NodeVersion, k: string,
                    latestOnly: bool)
      requires VersionsMapKept(m, seen, latestOnly) && KeyOf(v) == k && v !in seen
      requires forall w :: w in seen && KeyOf(w) == k ==> w.timestamp != v.timestamp
      ensures var kept := AddVersionNode(if k in m then m[k] else [], v, latestOnly);
              VersionsMapKept(m[k := kept], seen + {v}, latestOnly)
    {
      hide KeyOf;
      var kept := if k in m then m[k] else [];
      var all := Keyed(seen, k);
      if k !in m {
        assert all == {};
        NothingKept(latestOnly);
      }
      assert Keyed(seen + {v}, k) == all + {v};
      KeptVersionsStep(kept, all, v, latestOnly);
      var more := AddVersionNode(kept, v, latestOnly);
      assert more != [];
      hide KeptVersions;
      forall l | l in m && l != k ensures Keyed(seen + {v}, l) == Keyed(seen, l) {}
    }

    lemma NothingKept(latestOnly: bool)
      ensures KeptVersions([], {}, latestOnly)
    {
    }

    /** What is kept for all keys, without the delete markers, are the reported versions. */
    lemma LiveVersions(f: Forest, nodes: seq<Node>, rootID: nat, m: map<string, seq<NodeVersion>>,
                       live: map<string, seq<NodeVersion>>, latestOnly: bool)
      requires WellFormed(f) && rootID in f && Listing(f, nodes, rootID)
      requires forall id :: id in f && InTree(f, rootID, id) ==> f[id] in nodes
      requires VersionsMapKept(m, SeenVersions(f, nodes), latestOnly)
      requires live == map k | k in m && !(latestOnly && |m[k]| > 0 && m[k][0].isDeleteMarker) :: m[k]
      ensures forall k :: k in live ==> NoDuplicates(live[k])
      ensures forall k, l, x :: k in live && l in live && x in live[k] && x in live[l] ==> k == l
      ensures forall v :: (exists k :: k in live && v in live[k]) <==> Reported(f, rootID, v, latestOnly)
    {
      hide WellFormed, Listing, SeenVersions, VersionBelow, KeyOf, KeptVersions, InTree;
      var seen := SeenVersions(f, nodes);
      forall v ensures v in seen <==> VersionBelow(f, rootID, v) { SeenIsBelow(f, nodes, rootID, v); }
      forall k | k in m ensures && NoDuplicates(m[k])
                                && (forall v :: v in m[k] <==> ChosenVersion(v, Keyed(seen, k), latestOnly))
                                && (latestOnly ==> |m[k]| <= 1)
      {
        KeptIs(m[k], Keyed(seen, k), latestOnly);
      }
      hide VersionsMapKept;
      assert forall v :: v in seen ==> KeyOf(v) in m by { MapHasKeys(m, seen, latestOnly); }
      forall v | Reported(f, rootID, v, latestOnly) ensures exists k :: k in live && v in live[k] {
        ChosenIsLatest(f, rootID, seen, v);
        var k := KeyOf(v);
        assert v in Keyed(seen, k);
        assert v in m[k];
        if latestOnly { assert m[k] == [v]; }
        assert k in live && v in live[k];
      }
      forall v, k | k in live && v in live[k] ensures Reported(f, rootID, v, latestOnly) {
        assert v in Keyed(seen, k);
        ChosenIsLatest(f, rootID, seen, v);
        if latestOnly { assert m[k] == [v]; }
      }
    }

    lemma KeptIs(kept: seq<NodeVersion>, all: set<NodeVersion>, latestOnly: bool)
      requires KeptVersions(kept, all, latestOnly)
      ensures NoDuplicates(kept)
      ensures (forall v :: v in kept <==> ChosenVersion(v, all, latestOnly)) && (latestOnly ==> |kept| <= 1)
    {
    }

    lemma MapHasKeys(m: map<string, seq<NodeVersion>>, seen: set<NodeVersion>, latestOnly: bool)
      requires VersionsMapKept(m, seen, latestOnly)
      ensures forall v :: v in seen ==> KeyOf(v) in m
    {
    }

    lemma SeenIsBelow(f: Forest, nodes: seq<Node>, rootID: nat, v: NodeVersion)
      requires WellFormed(f) && rootID in f && Listing(f, nodes, rootID)
      requires forall id :: id in f && InTree(f, rootID, id) ==> f[id] in nodes
      ensures v in SeenVersions(f, nodes) <==> VersionBelow(f, rootID, v)
    {
      hide Comps, Hangs, Shaped, InTree;
      if VersionBelow(f, rootID, v) {
        IdOf(f, v.id);
        assert f[v.id] in nodes;
      }
      if v in SeenVersions(f, nodes) {
        var n :| n in nodes && n.id in f && f[n.id] == n && IsVersion(n) && v == NewNodeVersion(Path(f, n.id), n);
      }
    }

    lemma ChosenIsLatest(f: Forest, rootID: nat, seen: set<NodeVersion>, v: NodeVersion)
      requires WellFormed(f) && v in seen && forall w :: w in seen <==> VersionBelow(f, rootID, w)
      ensures ChosenVersion(v, Keyed(seen, KeyOf(v)), true) <==>
              forall w :: VersionBelow(f, rootID, w) && w.filePath == v.filePath ==> w.timestamp <= v.timestamp
    {
      forall w | w in seen ensures KeyOf(w) == KeyOf(v) <==> w.filePath == v.filePath {
        KeyIsPath(f, w.id, v.id);
      }
      hide WellFormed, KeyOf;
    }

    /** The versions of a prefix; with `latestOnly`, only the latest of each path that is no delete marker. */
    ghost predicate Matches(f: Forest, v: NodeVersion, prefix: string, latestOnly: bool)
      requires WellFormed(f)
    {
      && v.id in Versions(f) && v == Versions(f)[v.id] && HasPrefix(v.filePath, prefix)
      && (latestOnly ==> !v.isDeleteMarker && IsLatest(Versions(f), v))
    }

    /** Looks the versions of a prefix up: exactly these are found, each once. */
    method GetVersionsByPrefix(prefix: string, latestOnly: bool) returns (result: seq<NodeVersion>, ok: bool)
      requires service.Valid()
      ensures ok && NoDuplicates(result)
      ensures forall v :: v in result <==> Matches(service.forest, v, prefix, latestOnly)
    {
      ghost var f, p := service.forest, Split(prefix, SEPARATOR);
      hide WellFormed, Comps, Top, InTree, Path, Reported, Matches, Chosen', Head, Split;
      var prefixNodes, headPrefix := GetSubTreeByPrefix(prefix, latestOnly);
      result, ok := [], true;
      hide FoundSoFar;
      NothingFound(f, prefixNodes, latestOnly);
      for i := 0 to |prefixNodes|
        invariant FoundSoFar(f, prefixNodes, i, result, latestOnly)
      {
        assert prefixNodes[i] in prefixNodes;
        ChosenIsTop(f, prefixNodes[i], p, latestOnly);
        var versions;
        versions, ok := GetSubTreeVersions(prefixNodes[i].id, headPrefix, latestOnly, p);
        if !ok {
          return;
        }
        FoundStep(f, prefixNodes, i, p, latestOnly, result, versions);
        result := result + versions;
      }
      ok := true;
      FoundAll(f, prefixNodes, result, prefix, latestOnly);
    }

    /** The result after the first `i` top nodes. */
    ghost predicate FoundSoFar(f: Forest, nodes: seq<Node>, i: nat, result: seq<NodeVersion>, latestOnly: bool)
      requires WellFormed(f) && i <= |nodes|
    {
      && NoDuplicates(result)
      && forall v :: v in result <==> exists j :: 0 <= j < i && Reported(f, nodes[j].id, v, latestOnly)
    }

    lemma NothingFound(f: Forest, nodes: seq<Node>, latestOnly: bool)
      requires WellFormed(f)
      ensures FoundSoFar(f, nodes, 0, [], latestOnly)
    {
    }

    lemma FoundStep(f: Forest, nodes: seq<Node>, i: nat, p: seq<string>, latestOnly: bool,
                    result: seq<NodeVersion>, versions: seq<NodeVersion>)
      requires WellFormed(f) && p != [] && i < |nodes| && NoDuplicates(nodes)
      requires forall n :: n in nodes ==> Chosen'(f, n, p, latestOnly)
      requires FoundSoFar(f, nodes, i, result, latestOnly) && NoDuplicates(versions)
      requires forall v :: v in versions <==> Reported(f, nodes[i].id, v, latestOnly)
      ensures FoundSoFar(f, nodes, i + 1, result + versions, latestOnly)
    {
      hide WellFormed, Reported, Chosen';
      ReportedOnce(f, nodes, i, p, latestOnly);
      NoDuplicatesConcat(result, versions);
    }

    lemma FoundAll(f: Forest, nodes: seq<Node>, result: seq<NodeVersion>, prefix: string, latestOnly: bool)
      requires WellFormed(f)
      requires forall n :: n in nodes <==> Chosen'(f, n, Split(prefix, SEPARATOR), latestOnly)
      requires FoundSoFar(f, nodes, |nodes|, result, latestOnly)
      ensures NoDuplicates(result) && forall v :: v in result <==> Matches(f, v, prefix, latestOnly)
    {
      hide WellFormed, Reported, Matches, Chosen', Split;
      FoundIffMatching(f, nodes, prefix, latestOnly);
    }

    lemma FoundIffMatching(f: Forest, nodes: seq<Node>, prefix: string, latestOnly: bool)
      requires WellFormed(f)
      requires forall n :: n in nodes <==> Chosen'(f, n, Split(prefix, SEPARATOR), latestOnly)
      ensures forall v :: (exists j :: 0 <= j < |nodes| && Reported(f, nodes[j].id, v, latestOnly)) <==>
                          Matches(f, v, prefix, latestOnly)
    {
      hide WellFormed, Reported, Matches, Chosen', Split;
      forall v, j | 0 <= j < |nodes| && Reported(f, nodes[j].id, v, latestOnly)
        ensures Matches(f, v, prefix, latestOnly)
      {
        assert nodes[j] in nodes;
        ReportedMatches(f, nodes[j], v, prefix, latestOnly);
      }
      forall v | Matches(f, v, prefix, latestOnly)
        ensures exists j :: 0 <= j < |nodes| && Reported(f, nodes[j].id, v, latestOnly)
      {
        var n := MatchIsReported(f, v, prefix, latestOnly);
        var j :| 0 <= j < |nodes| && nodes[j] == n;
      }
    }

    lemma ChosenIsTop(f: Forest, n: Node, p: seq<string>, latestOnly: bool)
      requires WellFormed(f) && p != [] && Chosen'(f, n, p, latestOnly)
      ensures Top(f, n.id, p) && n == f[n.id]
    {
    }

    /** No version is reported below two top nodes. */
    lemma ReportedOnce(f: Forest, nodes: seq<Node>, i: nat, p: seq<string>, latestOnly: bool)
      requires WellFormed(f) && p != [] && i < |nodes| && NoDuplicates(nodes)
      requires forall n :: n in nodes ==> Chosen'(f, n, p, latestOnly)
      ensures forall v, j :: 0 <= j < i && Reported(f, nodes[j].id, v, latestOnly) ==>
                !Reported(f, nodes[i].id, v, latestOnly)
    {
      hide Shaped, Comps, Hangs, InTree;
      forall v, j | 0 <= j < i && Reported(f, nodes[j].id, v, latestOnly)
        ensures !Reported(f, nodes[i].id, v, latestOnly)
      {
        assert nodes[i] in nodes && nodes[j] in nodes;
        if Reported(f, nodes[i].id, v, latestOnly) {
          OneTopAbove(f, nodes[i].id, nodes[j].id, v.id);
        }
      }
    }

    /** What is reported below a chosen top node matches the prefix. */
    lemma ReportedMatches(f: Forest, n: Node, v: NodeVersion, prefix: string, latestOnly: bool)
      requires WellFormed(f) && Chosen'(f, n, Split(prefix, SEPARATOR), latestOnly) && Reported(f, n.id, v, latestOnly)
      ensures Matches(f, v, prefix, latestOnly)
    {
      hide Shaped, Comps, Top, Split, InTree, WellFormed;
      PrefixIsTop(f, v.id, prefix);
      if latestOnly {
        forall id | id in Versions(f) && Versions(f)[id].filePath == v.filePath
          ensures Versions(f)[id].timestamp <= v.timestamp
        {
          SamePath(f, id, v.id);
          IdOf(f, id);
          if v.id == n.id {
            VersionIsLeaf(f, v.id);
            VersionIsLeaf(f, id);
          } else {
            SiblingInTree(f, n.id, v.id, id);
            assert VersionBelow(f, n.id, Versions(f)[id]);
          }
        }
      }
    }

    lemma VersionIsLeaf(f: Forest, id: nat)
      requires WellFormed(f) && id in f && HasName(f[id])
      ensures IsVersion(f[id]) <==> !IsIntermediate(f[id])
    {
      assert Hangs(f, id) && Shaped(f, id);
    }

    lemma SiblingInTree(f: Forest, root: nat, a: nat, b: nat)
      requires WellFormed(f) && a in f && b in f && a != root && InTree(f, root, a) && Siblings(f[a], f[b])
      ensures InTree(f, root, b)
    {
      hide Shaped;
      assert Hangs(f, a) && Hangs(f, b);
    }

    /** What matches the prefix is reported below a chosen top node. */
    lemma MatchIsReported(f: Forest, v: NodeVersion, prefix: string, latestOnly: bool) returns (n: Node)
      requires WellFormed(f) && Matches(f, v, prefix, latestOnly)
      ensures Chosen'(f, n, Split(prefix, SEPARATOR), latestOnly) && Reported(f, n.id, v, latestOnly)
    {
      hide Shaped, Comps, Top, Split, InTree, WellFormed, Path;
      IdOf(f, v.id);
      PrefixIsTop(f, v.id, prefix);
      var c :| Top(f, c, Split(prefix, SEPARATOR)) && InTree(f, c, v.id);
      TopExists(f, c, Split(prefix, SEPARATOR));
      n := f[c];
      IdOf(f, c);
      InTreePrefix(f, c, v.id);
      if latestOnly {
        if !IsIntermediate(n) {
          forall id | id in f && HasName(f[id]) && Siblings(f[id], n) && !IsIntermediate(f[id])
            ensures f[id].timestamp <= n.timestamp
          {
            SamePath(f, id, v.id);
            VersionIsLeaf(f, id);
            assert id in Versions(f);
          }
        }
        forall w | VersionBelow(f, n.id, w) && w.filePath == v.filePath ensures w.timestamp <= v.timestamp {
          assert w.id in Versions(f) && Versions(f)[w.id] == w;
        }
      }
    }

    lemma TopExists(f: Forest, c: nat, p: seq<string>)
      requires WellFormed(f) && p != [] && Top(f, c, p)
      ensures c in f && HasName(f[c])
    {
    }
  }
}