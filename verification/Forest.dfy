/**
 The forest of nodes that the tree service keeps for a bucket, and the object versions it stands for.
 */
module Forests {
  import opened Strings

  // keys of node attributes
  const FILE_NAME := "FileName"
  const OID := "OID"
  const IS_UNVERSIONED := "IsUnversioned"
  const IS_DELETE_MARKER := "IsDeleteMarker"
  const IS_TAG := "IsTag"
  const IS_LOCK := "IsLock"

  const SEPARATOR := '/'

  /** A node; `depth` is its distance from the root, whose id is 0. */
  datatype Node = Node(id: nat, parent: nat, timestamp: nat, depth: nat, meta: map<string, string>)

  type Forest = map<nat, Node>

  predicate HasName(n: Node) { FILE_NAME in n.meta }

  function FileName(n: Node): string { if HasName(n) then n.meta[FILE_NAME] else "" }

  function Oid(n: Node): string { if OID in n.meta then n.meta[OID] else "" }

  predicate IsIntermediate(n: Node) { n.meta.Keys == {FILE_NAME} }

  predicate IsVersion(n: Node) { HasName(n) && Oid(n) != "" }

  /** A node hangs below the root or below a node that is one level higher. */
  ghost predicate Hangs(f: Forest, id: nat)
    requires id in f
  {
    var n := f[id];
    && id != 0 && n.id == id
    && (if n.parent == 0 then n.depth == 1 else n.parent in f && n.depth == f[n.parent].depth + 1)
  }

  /**
   Named nodes are directories or versions and hang below directories; other nodes (tags and locks) hang
   below versions. A directory has only one node.
   */
  ghost predicate Shaped(f: Forest, id: nat)
    requires id in f && Hangs(f, id)
  {
    var n := f[id];
    if HasName(n) then
      && SEPARATOR !in FileName(n) && (IsIntermediate(n) || IsVersion(n))
      && (n.parent == 0 || IsIntermediate(f[n.parent]))
    else n.parent != 0 && IsVersion(f[n.parent])
  }

  /** Two nodes with one name in one directory. */
  ghost predicate Siblings(a: Node, b: Node)
  {
    a.parent == b.parent && FileName(a) == FileName(b)
  }

  ghost predicate SingleDirectories(f: Forest)
  {
    forall a, b :: a in f && b in f && IsIntermediate(f[a]) && IsIntermediate(f[b]) && Siblings(f[a], f[b]) ==> a == b
  }

  /** No two versions of one name are equally old. */
  ghost predicate DistinctTimes(f: Forest)
  {
    forall a, b :: a in f && b in f && IsVersion(f[a]) && IsVersion(f[b]) && Siblings(f[a], f[b]) && a != b ==>
      f[a].timestamp != f[b].timestamp
  }

  ghost predicate WellFormed(f: Forest)
  {
    && (forall id :: id in f ==> Hangs(f, id))
    && (forall id :: id in f ==> Shaped(f, id))
    && SingleDirectories(f) && DistinctTimes(f)
  }

  /** Nothing is below a node. */
  ghost predicate Childless(f: Forest, id: nat)
  {
    forall x :: x in f ==> f[x].parent != id
  }

  /** The names on the way from the root to a node. */
  function Comps(f: Forest, id: nat): (r: seq<string>)
    requires WellFormed(f) && id in f && HasName(f[id])
    ensures |r| == f[id].depth && r != [] && r[|r| - 1] == FileName(f[id])
    ensures forall c :: c in r ==> SEPARATOR !in c
    decreases f[id].depth
  {
    assert Hangs(f, id) && Shaped(f, id);
    if f[id].parent == 0 then [FileName(f[id])]
    else Comps(f, f[id].parent) + [FileName(f[id])]
  }

  /** The names above a named node: those on the way to its parent. */
  ghost function ParentComps(f: Forest, parent: nat): (r: seq<string>)
    requires WellFormed(f) && (parent == 0 || (parent in f && HasName(f[parent])))
    ensures forall c :: c in r ==> SEPARATOR !in c
  {
    if parent == 0 then [] else Comps(f, parent)
  }

  lemma CompsOf(f: Forest, id: nat)
    requires WellFormed(f) && id in f && HasName(f[id])
    ensures f[id].parent == 0 || (f[id].parent in f && HasName(f[f[id].parent]) && IsIntermediate(f[f[id].parent]))
    ensures Comps(f, id) == ParentComps(f, f[id].parent) + [FileName(f[id])]
  {
    assert Hangs(f, id) && Shaped(f, id);
    assert f[id].parent != 0 ==> FILE_NAME in f[f[id].parent].meta.Keys;
  }

  ghost function Path(f: Forest, id: nat): string
    requires WellFormed(f) && id in f && HasName(f[id])
  {
    Join(Comps(f, id), SEPARATOR)
  }

  /** A directory is determined by its path. */
  lemma {:induction false} DirectoryUnique(f: Forest, a: nat, b: nat)
    requires WellFormed(f) && a in f && b in f && IsIntermediate(f[a]) && IsIntermediate(f[b])
    requires HasName(f[a]) && HasName(f[b]) && Comps(f, a) == Comps(f, b)
    ensures a == b
    decreases f[a].depth
  {
    hide Comps, Shaped;
    CompsOf(f, a);
    CompsOf(f, b);
    var pa, pb := f[a].parent, f[b].parent;
    assert ParentComps(f, pa) == Comps(f, a)[..|Comps(f, a)| - 1];
    assert ParentComps(f, pb) == Comps(f, b)[..|Comps(f, b)| - 1];
    if pa != 0 && pb != 0 {
      assert Hangs(f, a);
      DirectoryUnique(f, pa, pb);
    }
    assert FileName(f[a]) == FileName(f[b]);
  }

  /** Two nodes have one path exactly if they have the same name in the same directory. */
  lemma SamePath(f: Forest, a: nat, b: nat)
    requires WellFormed(f) && a in f && b in f && HasName(f[a]) && HasName(f[b])
    ensures Path(f, a) == Path(f, b) <==> Siblings(f[a], f[b])
  {
    hide Comps, Shaped, Hangs;
    CompsOf(f, a);
    CompsOf(f, b);
    var pa, pb, ca, cb := f[a].parent, f[b].parent, Comps(f, a), Comps(f, b);
    SplitJoin(ca, SEPARATOR);
    SplitJoin(cb, SEPARATOR);
    if ca == cb {
      assert ParentComps(f, pa) == ca[..|ca| - 1] == cb[..|cb| - 1] == ParentComps(f, pb);
      if pa != 0 && pb != 0 {
        DirectoryUnique(f, pa, pb);
      }
    }
  }

  // ---- the versions of a bucket ----

  /** What the gateway reads off a version node. */
  datatype NodeVersion = NodeVersion(id: nat, parenID: nat, oid: string, timestamp: nat, filePath: string,
                                     isUnversioned: bool, isDeleteMarker: bool)

  function NodePath(n: NodeVersion): string { n.filePath }

  function NewNodeVersion(filePath: string, n: Node): NodeVersion
  {
    NodeVersion(n.id, n.parent, Oid(n), n.timestamp, filePath, IS_UNVERSIONED in n.meta, IS_DELETE_MARKER in n.meta)
  }

  /** All object versions of the bucket by node id. */
  ghost function Versions(f: Forest): map<nat, NodeVersion>
    requires WellFormed(f)
  {
    map id | id in f && IsVersion(f[id]) :: NewNodeVersion(Path(f, id), f[id])
  }

  /** A version that no other version of the same path is younger than. */
  ghost predicate IsLatest(vs: map<nat, NodeVersion>, v: NodeVersion)
  {
    forall id :: id in vs && vs[id].filePath == v.filePath ==> vs[id].timestamp <= v.timestamp
  }

  // ---- prefixes ----

  /** Node `id` is `root` or below it. */
  ghost predicate InTree(f: Forest, root: nat, id: nat)
    requires WellFormed(f) && id in f
    decreases f[id].depth
  {
    assert Hangs(f, id);
    id == root || (f[id].parent != 0 && InTree(f, root, f[id].parent))
  }

  /** A node and all nodes below it. */
  ghost function TreeOf(f: Forest, root: nat): set<nat>
    requires WellFormed(f)
  {
    set id | id in f && InTree(f, root, id)
  }

  /** A node with the directories of `prefix` above it and a name that starts with its last component. */
  ghost predicate Top(f: Forest, c: nat, prefix: seq<string>)
    requires WellFormed(f) && prefix != []
  {
    c in f && HasName(f[c]) && f[c].depth == |prefix| && StartsWith(Comps(f, c), prefix)
  }

  lemma {:induction false} InTreePrefix(f: Forest, root: nat, id: nat)
    requires WellFormed(f) && id in f && HasName(f[id]) && InTree(f, root, id)
    ensures root in f && HasName(f[root]) && f[root].depth <= f[id].depth
    ensures Comps(f, root) == Comps(f, id)[..f[root].depth]
    ensures root != id ==> IsIntermediate(f[root])
    decreases f[id].depth
  {
    hide Shaped, Comps;
    assert Hangs(f, id);
    CompsOf(f, id);
    if id != root {
      InTreePrefix(f, root, f[id].parent);
      assert Comps(f, id)[..f[root].depth] == Comps(f, f[id].parent)[..f[root].depth];
    } else {
      assert Comps(f, id)[..f[root].depth] == Comps(f, id);
    }
  }

  /** Below which top node a named node is. */
  lemma {:induction false} TopAbove(f: Forest, id: nat, level: nat) returns (c: nat)
    requires WellFormed(f) && id in f && HasName(f[id]) && 0 < level <= f[id].depth
    ensures c in f && HasName(f[c]) && f[c].depth == level && InTree(f, c, id)
    ensures Comps(f, c) == Comps(f, id)[..level]
    decreases f[id].depth
  {
    hide Shaped, Comps;
    assert Hangs(f, id);
    CompsOf(f, id);
    if level == f[id].depth {
      c := id;
      assert Comps(f, id)[..level] == Comps(f, id);
    } else {
      c := TopAbove(f, f[id].parent, level);
      assert Comps(f, id)[..level] == Comps(f, f[id].parent)[..level];
    }
  }

  lemma {:induction false} OneTopAbove(f: Forest, c: nat, d: nat, id: nat)
    requires WellFormed(f) && id in f && c in f && d in f && InTree(f, c, id) && InTree(f, d, id)
    requires f[c].depth == f[d].depth
    ensures c == d
    decreases f[id].depth
  {
    hide Shaped;
    assert Hangs(f, id);
    if id == c || id == d {
      DepthBelow(f, c, id);
      DepthBelow(f, d, id);
    } else {
      OneTopAbove(f, c, d, f[id].parent);
    }
  }

  lemma {:induction false} DepthBelow(f: Forest, root: nat, id: nat)
    requires WellFormed(f) && id in f && root in f && InTree(f, root, id)
    ensures f[root].depth <= f[id].depth && (f[root].depth == f[id].depth ==> root == id)
    decreases f[id].depth
  {
    hide Shaped;
    assert Hangs(f, id);
    if id != root { DepthBelow(f, root, f[id].parent); }
  }

  /** The paths with a prefix are those of the named nodes below its top nodes. */
  lemma PrefixIsTop(f: Forest, id: nat, prefix: string)
    requires WellFormed(f) && id in f && HasName(f[id])
    ensures HasPrefix(Path(f, id), prefix) <==>
            exists c :: Top(f, c, Split(prefix, SEPARATOR)) && InTree(f, c, id)
  {
    hide Shaped, Comps, Hangs, Join, Split;
    var p, comps := Split(prefix, SEPARATOR), Comps(f, id);
    JoinHasPrefix(comps, prefix, SEPARATOR);
    if StartsWith(comps, p) {
      var c := TopAbove(f, id, |p|);
      assert Comps(f, c)[..|p| - 1] == comps[..|p| - 1];
      assert Top(f, c, p);
    }
    if c :| Top(f, c, p) && InTree(f, c, id) {
      InTreePrefix(f, c, id);
      assert comps[..|p| - 1] == Comps(f, c)[..|p| - 1];
    }
  }
}
