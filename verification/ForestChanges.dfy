/** What adding, replacing and removing nodes does to a forest and to the versions it stands for. */
module ForestChanges {
  import opened Forests
  import opened Strings

  /** Nodes in both forests hang in the same place under the same name. */
  ghost predicate Agree(f: Forest, g: Forest)
  {
    forall id :: id in f && id in g ==>
      f[id].parent == g[id].parent && HasName(f[id]) == HasName(g[id]) && FileName(f[id]) == FileName(g[id])
  }

  lemma {:induction false} CompsAgree(f: Forest, g: Forest, id: nat)
    requires WellFormed(f) && WellFormed(g) && Agree(f, g) && id in f && id in g && HasName(f[id])
    ensures Comps(f, id) == Comps(g, id)
    decreases f[id].depth
  {
    hide Shaped;
    CompsOf(f, id);
    CompsOf(g, id);
    assert Hangs(f, id);
    if f[id].parent != 0 {
      CompsAgree(f, g, f[id].parent);
    }
  }

  /** The timestamp of a new or changed node is later than all others. */
  ghost predicate Later(f: Forest, ts: nat)
  {
    forall id :: id in f ==> f[id].timestamp < ts
  }

  /** A place for a new node: below the root or an existing directory. */
  ghost predicate Place(f: Forest, parent: nat)
  {
    parent == 0 || (parent in f && IsIntermediate(f[parent]))
  }

  function DepthAt(f: Forest, parent: nat): nat
    requires parent == 0 || parent in f
  {
    if parent == 0 then 1 else f[parent].depth + 1
  }

  /** A named node can be added to a directory if it is a version, or the first directory of its name there. */
  lemma AddNamed(f: Forest, n: Node)
    requires WellFormed(f) && n.id !in f && n.id != 0 && Later(f, n.timestamp)
    requires Place(f, n.parent) && n.parent != n.id && n.depth == DepthAt(f, n.parent)
    requires HasName(n) && SEPARATOR !in FileName(n) && (IsIntermediate(n) || IsVersion(n))
    requires IsIntermediate(n) ==> forall id :: id in f && IsIntermediate(f[id]) ==> !Siblings(f[id], n)
    ensures WellFormed(f[n.id := n]) && Agree(f, f[n.id := n])
  {
    var g := f[n.id := n];
    forall id | id in g ensures Hangs(g, id) && Shaped(g, id) {
      AddKeepsShape(f, n, id);
    }
    hide Hangs, Shaped, Siblings, IsVersion, IsIntermediate;
    NewDirectory(f, n);
    NewTime(f, n);
  }

  lemma AddKeepsShape(f: Forest, n: Node, id: nat)
    requires (forall x :: x in f ==> Hangs(f, x) && Shaped(f, x)) && n.id !in f && n.id != 0
    requires Place(f, n.parent) && n.parent != n.id && n.depth == DepthAt(f, n.parent) && (id == n.id || id in f)
    requires HasName(n) && SEPARATOR !in FileName(n) && (IsIntermediate(n) || IsVersion(n))
    ensures Hangs(f[n.id := n], id) && Shaped(f[n.id := n], id)
  {
    if id != n.id { assert Hangs(f, id) && Shaped(f, id); }
  }

  lemma NewDirectory(f: Forest, n: Node)
    requires SingleDirectories(f) && n.id !in f
    requires IsIntermediate(n) ==> forall id :: id in f && IsIntermediate(f[id]) ==> !Siblings(f[id], n)
    ensures SingleDirectories(f[n.id := n])
  {
  }

  lemma NewTime(f: Forest, n: Node)
    requires DistinctTimes(f) && n.id !in f && Later(f, n.timestamp)
    ensures DistinctTimes(f[n.id := n])
  {
    hide IsVersion, Siblings;
  }

  /** A change of a node that is no directory afterwards leaves directories alone. */
  lemma NamesStay(f: Forest, n: Node)
    requires SingleDirectories(f) && DistinctTimes(f) && !IsIntermediate(n)
    requires !HasName(n) || (n.id in f && IsVersion(f[n.id]) && Siblings(f[n.id], n) && Later(f, n.timestamp))
    ensures SingleDirectories(f[n.id := n]) && DistinctTimes(f[n.id := n])
  {
    var g := f[n.id := n];
    forall a, b | a in g && b in g && IsVersion(g[a]) && IsVersion(g[b]) && Siblings(g[a], g[b]) && a != b
      ensures g[a].timestamp != g[b].timestamp
    {
      if a == n.id { assert Siblings(f[a], f[b]); }
      if b == n.id { assert Siblings(f[a], f[b]); }
    }
  }

  /** A version can be replaced by another one of the same name, a tag or lock by another. */
  lemma Replace(f: Forest, n: Node)
    requires WellFormed(f) && n.id in f && Later(f, n.timestamp)
    requires n.parent == f[n.id].parent && n.depth == f[n.id].depth && FileName(n) == FileName(f[n.id])
    requires (IsVersion(n) && IsVersion(f[n.id])) || (!HasName(n) && !HasName(f[n.id]))
    ensures WellFormed(f[n.id := n]) && Agree(f, f[n.id := n])
  {
    hide IsIntermediate, SingleDirectories, DistinctTimes, Siblings, IsVersion, Hangs, Shaped, Later, HasName, FileName;
    ReplaceFits(f[n.id], n);
    ReplaceShapes(f, n);
    NamesStay(f, n);
    ReplaceAgrees(f, n);
  }

  lemma ReplaceFits(was: Node, n: Node)
    requires n.parent == was.parent && FileName(n) == FileName(was)
    requires (IsVersion(n) && IsVersion(was)) || (!HasName(n) && !HasName(was))
    ensures !IsIntermediate(n) && !IsIntermediate(was) && Siblings(was, n) && HasName(n) == HasName(was)
  {
    NotBoth(n);
    NotBoth(was);
  }

  lemma ReplaceAgrees(f: Forest, n: Node)
    requires n.id in f && n.parent == f[n.id].parent && FileName(n) == FileName(f[n.id])
    requires HasName(n) == HasName(f[n.id])
    ensures Agree(f, f[n.id := n])
  {
    hide FileName, HasName;
  }

  lemma ReplaceShapes(f: Forest, n: Node)
    requires n.id in f && n.parent == f[n.id].parent && n.depth == f[n.id].depth && FileName(n) == FileName(f[n.id])
    requires (IsVersion(n) && IsVersion(f[n.id])) || (!HasName(n) && !HasName(f[n.id]))
    requires !IsIntermediate(f[n.id]) && forall x :: x in f ==> Hangs(f, x) && Shaped(f, x)
    ensures forall id :: id in f ==> Hangs(f[n.id := n], id) && Shaped(f[n.id := n], id)
  {
    hide IsIntermediate, IsVersion, Hangs, Shaped, HasName, FileName;
    forall id | id in f ensures Hangs(f[n.id := n], id) && Shaped(f[n.id := n], id) {
      ReplaceKeepsShape(f, n, id);
    }
  }

  lemma ReplaceKeepsShape(f: Forest, n: Node, id: nat)
    requires n.id in f && n.parent == f[n.id].parent && n.depth == f[n.id].depth && FileName(n) == FileName(f[n.id])
    requires (IsVersion(n) && IsVersion(f[n.id])) || (!HasName(n) && !HasName(f[n.id]))
    requires !IsIntermediate(f[n.id]) && id in f && forall x :: x in f ==> Hangs(f, x) && Shaped(f, x)
    ensures Hangs(f[n.id := n], id) && Shaped(f[n.id := n], id)
  {
    assert Hangs(f, id) && Shaped(f, id);
    assert Hangs(f, n.id) && Shaped(f, n.id);
  }

  lemma NotBoth(n: Node)
    ensures !(IsIntermediate(n) && IsVersion(n)) && (!HasName(n) ==> !IsIntermediate(n))
  {
    if IsIntermediate(n) { assert OID !in n.meta.Keys; }
  }

  /** Removing a node with everything below it. */
  lemma RemoveTree(f: Forest, root: nat, removed: set<nat>)
    requires WellFormed(f) && root in f
    requires forall id :: id in removed <==> id in f && InTree(f, root, id)
    ensures WellFormed(f - removed) && Agree(f, f - removed)
  {
    var g := f - removed;
    forall id | id in g ensures Hangs(g, id) && Shaped(g, id) {
      assert Hangs(f, id) && Shaped(f, id);
      if f[id].parent in removed { assert InTree(f, root, id); }
    }
  }

  // ---- versions ----

  /** Versions depend only on the places and names of nodes and on the version nodes themselves. */
  lemma VersionsAfterAdd(f: Forest, n: Node)
    requires WellFormed(f) && WellFormed(f[n.id := n]) && Agree(f, f[n.id := n])
    requires n.id in f ==> IsVersion(n) == IsVersion(f[n.id])
    ensures Versions(f[n.id := n]) ==
            if IsVersion(n) then Versions(f)[n.id := NewNodeVersion(Path(f[n.id := n], n.id), n)] else Versions(f)
  {
    hide WellFormed, Comps, Agree, Path, HasName, NewNodeVersion;
    var g := f[n.id := n];
    forall id | id in f && id != n.id && IsVersion(f[id]) ensures Path(g, id) == Path(f, id) { PathStays(f, g, id); }
  }

  lemma PathStays(f: Forest, g: Forest, id: nat)
    requires WellFormed(f) && WellFormed(g) && Agree(f, g) && id in f && id in g && HasName(f[id])
    ensures HasName(g[id]) && Path(f, id) == Path(g, id)
  {
    CompsAgree(f, g, id);
  }

  lemma VersionsAfterRemove(f: Forest, removed: set<nat>)
    requires WellFormed(f) && WellFormed(f - removed) && Agree(f, f - removed)
    ensures Versions(f - removed) == Versions(f) - removed
  {
    hide WellFormed, Comps, Agree;
    var g := f - removed;
    forall id | id in g && HasName(g[id]) ensures Path(g, id) == Path(f, id) { CompsAgree(f, g, id); }
  }

  /** Below a version there are no other versions. */
  lemma OnlyItself(f: Forest, root: nat, id: nat)
    requires WellFormed(f) && root in f && id in f && InTree(f, root, id)
    requires IsVersion(f[root]) || !HasName(f[root])
    ensures IsVersion(f[id]) ==> id == root
  {
    if IsVersion(f[id]) {
      InTreePrefix(f, root, id);
      NotBoth(f[root]);
    }
  }
}
