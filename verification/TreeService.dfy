/** The tree service as its client sees it: queries over the forest and changes to it. */
module TreeServices {
  import opened ForestChanges
  import opened Forests
  import opened Strings

  /** The entry for the root itself, which is no node of the forest. */
  const ROOT := Node(0, 0, 0, 0, map[])

  /** A query answer lists each node of the forest at most once. */
  ghost predicate Answer(f: Forest, nodes: seq<Node>)
  {
    && (forall i :: 0 <= i < |nodes| ==> nodes[i].id in f && f[nodes[i].id] == nodes[i])
    && (forall i, j :: 0 <= i < j < |nodes| ==> nodes[i].id != nodes[j].id)
  }

  lemma AnswerSnoc(f: Forest, nodes: seq<Node>, id: nat)
    requires WellFormed(f) && Answer(f, nodes) && id in f && id !in Ids(nodes)
    ensures f[id].id == id && Answer(f, nodes + [f[id]]) && Ids(nodes + [f[id]]) == Ids(nodes) + {id}
  {
    assert f[id].id == id by { assert Hangs(f, id); }
    hide WellFormed;
    IdsSnoc(nodes, f[id]);
    forall i | 0 <= i < |nodes| ensures nodes[i].id in Ids(nodes) { assert nodes[i] in nodes; }
  }

  lemma IdsSnoc(nodes: seq<Node>, n: Node)
    ensures Ids(nodes + [n]) == Ids(nodes) + {n.id}
  {
    forall x | x in Ids(nodes) + {n.id} ensures x in Ids(nodes + [n]) {
      if x in Ids(nodes) {
        var m :| m in nodes && m.id == x;
        assert m in nodes + [n];
      } else {
        assert n in nodes + [n];
      }
    }
  }

  /** What an answer lists are nodes of the forest. */
  lemma AnswerNodes(f: Forest, nodes: seq<Node>)
    requires Answer(f, nodes)
    ensures forall n :: n in nodes ==> n.id in f && f[n.id] == n
    ensures forall id :: id in Ids(nodes) <==> id in f && f[id] in nodes && f[id].id == id
  {
    forall n | n in nodes ensures n.id in f && f[n.id] == n {
      var i :| 0 <= i < |nodes| && nodes[i] == n;
    }
  }

  ghost function Ids(nodes: seq<Node>): set<nat>
  {
    set n | n in nodes :: n.id
  }

  ghost predicate HasEarlier(nodes: seq<Node>, i: nat, id: nat)
    requires i <= |nodes|
  {
    exists j :: 0 <= j < i && nodes[j].id == id
  }

  lemma EarlierSnoc(nodes: seq<Node>, n: Node)
    requires forall i :: 0 < i < |nodes| ==> HasEarlier(nodes, i, nodes[i].parent)
    requires exists m :: m in nodes && m.id == n.parent
    ensures forall i :: 0 < i < |nodes + [n]| ==> HasEarlier(nodes + [n], i, (nodes + [n])[i].parent)
  {
    var more := nodes + [n];
    forall i | 0 < i < |more| ensures HasEarlier(more, i, more[i].parent) {
      if i < |nodes| {
        assert HasEarlier(nodes, i, nodes[i].parent);
        var k :| 0 <= k < i && nodes[k].id == nodes[i].parent;
        assert more[k] == nodes[k];
      } else {
        var m :| m in nodes && m.id == n.parent;
        var k :| 0 <= k < |nodes| && nodes[k] == m;
        assert more[k] == nodes[k];
      }
    }
  }

  /** The sub-tree of a node, parents before their children. */
  ghost predicate Listing(f: Forest, nodes: seq<Node>, rootID: nat)
    requires WellFormed(f) && rootID in f
  {
    && Answer(f, nodes) && nodes != [] && nodes[0] == f[rootID]
    && (forall n :: n in nodes ==> n.id in f && InTree(f, rootID, n.id))
    && (forall i :: 0 < i < |nodes| ==> HasEarlier(nodes, i, nodes[i].parent))
  }

  class TreeService {
    var forest: Forest
    var nextId: nat
    var clock: nat

    ghost predicate Valid()
      reads this
    {
      && WellFormed(forest) && 0 < nextId
      && forall id :: id in forest ==> id < nextId && forest[id].timestamp < clock
    }

    constructor ()
      ensures Valid() && forest == map[]
    {
      forest, nextId, clock := map[], 1, 0;
    }

    /** Lists the nodes with the given ids in any order. */
    method Enumerate(ids: set<nat>) returns (nodes: seq<Node>)
      requires Valid() && ids <= forest.Keys
      ensures Answer(forest, nodes)
      ensures forall n :: n in nodes <==> n.id in ids && n == forest[n.id]
    {
      hide WellFormed, Answer, Ids;
      nodes := [];
      var left := ids;
      EmptyAnswer();
      while left != {}
        invariant left <= ids && Answer(forest, nodes) && Ids(nodes) == ids - left
        decreases left
      {
        var id :| id in left;
        AnswerSnoc(forest, nodes, id);
        nodes := nodes + [forest[id]];
        left := left - {id};
      }
      AnswerIds(nodes);
    }

    lemma EmptyAnswer()
      ensures Answer(forest, []) && Ids([]) == {}
    {
    }

    lemma AnswerIds(nodes: seq<Node>)
      requires Valid() && Answer(forest, nodes)
      ensures forall n :: n in nodes <==> n.id in Ids(nodes) && n.id in forest && n == forest[n.id]
    {
      AnswerNodes(forest, nodes);
    }

    /** All nodes with a path, directories included. */
    method GetNodeByPath(path: seq<string>) returns (nodes: seq<Node>)
      requires Valid()
      ensures Answer(forest, nodes)
      ensures forall n :: n in nodes <==>
                n.id in forest && n == forest[n.id] && HasName(n) && Comps(forest, n.id) == path
    {
      nodes := Enumerate(set id | id in forest && HasName(forest[id]) && Comps(forest, id) == path);
    }

    /** A node, or the root, with its children: a sub-tree of depth two. */
    method GetChildren(rootID: nat) returns (nodes: seq<Node>)
      requires Valid() && (rootID == 0 || rootID in forest)
      ensures nodes != [] && nodes[0] == (if rootID == 0 then ROOT else forest[rootID])
      ensures Answer(forest, nodes[1..])
      ensures forall n :: n in nodes[1..] <==> n.id in forest && n == forest[n.id] && n.parent == rootID
    {
      var children := Enumerate(set id | id in forest && forest[id].parent == rootID);
      nodes := [if rootID == 0 then ROOT else forest[rootID]] + children;
    }

    /** A node with everything below it, parents before their children, otherwise in any order. */
    method GetSubTree(rootID: nat) returns (nodes: seq<Node>)
      requires Valid() && rootID in forest
      ensures Listing(forest, nodes, rootID)
      ensures forall id :: id in forest && InTree(forest, rootID, id) ==> forest[id] in nodes
    {
      hide WellFormed, InTree, Listing;
      RootListed(rootID);
      nodes := [forest[rootID]];
      var listed := {rootID};
      var open := set id | id in forest && id !in listed && forest[id].parent in listed;
      while open != {}
        invariant Listing(forest, nodes, rootID) && listed == Ids(nodes)
        invariant open == set id | id in forest && id !in listed && forest[id].parent in listed
        decreases forest.Keys - listed
      {
        var id :| id in open;
        Extended(nodes, id, rootID);
        nodes := nodes + [forest[id]];
        listed := listed + {id};
        open := set id | id in forest && id !in listed && forest[id].parent in listed;
      }
      forall x | x in forest && x !in listed ensures forest[x].parent !in listed { assert x !in open; }
      AllListed(nodes, rootID);
    }

    lemma RootListed(rootID: nat)
      requires Valid() && rootID in forest
      ensures Listing(forest, [forest[rootID]], rootID) && Ids([forest[rootID]]) == {rootID}
    {
      hide Shaped, Comps, SingleDirectories, DistinctTimes;
      assert Hangs(forest, rootID);
    }

    lemma Extended(nodes: seq<Node>, id: nat, rootID: nat)
      requires Valid() && rootID in forest && Listing(forest, nodes, rootID) && id in forest
      requires id !in Ids(nodes) && forest[id].parent in Ids(nodes)
      ensures Listing(forest, nodes + [forest[id]], rootID)
      ensures Ids(nodes + [forest[id]]) == Ids(nodes) + {id}
    {
      hide WellFormed, InTree, Ids, Answer;
      var parent := forest[id].parent;
      AnswerSnoc(forest, nodes, id);
      AnswerNodes(forest, nodes);
      assert forest[parent] in nodes && forest[parent].id == parent;
      ChildInTree(rootID, id);
      EarlierSnoc(nodes, forest[id]);
    }

    lemma ChildInTree(rootID: nat, id: nat)
      requires Valid() && id in forest && forest[id].parent in forest && InTree(forest, rootID, forest[id].parent)
      ensures InTree(forest, rootID, id)
    {
      assert Hangs(forest, forest[id].parent);
      assert Hangs(forest, id);
    }

    lemma AllListed(nodes: seq<Node>, rootID: nat)
      requires Valid() && rootID in forest && Listing(forest, nodes, rootID)
      requires forall x :: x in forest && x !in Ids(nodes) ==> forest[x].parent !in Ids(nodes)
      ensures forall id :: id in forest && InTree(forest, rootID, id) ==> forest[id] in nodes
    {
      AnswerNodes(forest, nodes);
      assert rootID in Ids(nodes) by { assert Hangs(forest, rootID); assert nodes[0] in nodes; }
      hide WellFormed, InTree, Ids, Listing, Answer;
      forall id | id in forest && InTree(forest, rootID, id) ensures forest[id] in nodes {
        Closed(rootID, Ids(nodes), id);
      }
    }

    lemma {:induction false} Closed(rootID: nat, listed: set<nat>, id: nat)
      requires Valid() && rootID in listed && listed <= forest.Keys && id in forest && InTree(forest, rootID, id)
      requires forall x :: x in forest && forest[x].parent in listed ==> x in listed
      ensures id in listed
      decreases forest[id].depth
    {
      assert Hangs(forest, id);
      if id != rootID { Closed(rootID, listed, forest[id].parent); }
    }

    /** All nodes of `f` are still there and unchanged. */
    ghost predicate Keeps(f: Forest)
      reads this
    {
      forall id :: id in f ==> id in forest && forest[id] == f[id]
    }

    /** Puts a node with the next id and time into the forest. */
    method Insert(parent: nat, meta: map<string, string>) returns (id: nat)
      requires Valid() && Place(forest, parent)
      requires FILE_NAME in meta && SEPARATOR !in meta[FILE_NAME]
      requires (OID in meta && meta[OID] != "") || (meta.Keys == {FILE_NAME} &&
                 forall x :: x in forest && IsIntermediate(forest[x]) && forest[x].parent == parent ==>
                   FileName(forest[x]) != meta[FILE_NAME])
      modifies this
      ensures Valid() && id !in old(forest) && id in forest && id != 0 && Keeps(old(forest))
      ensures forest[id].meta == meta && forest[id].parent == parent && forest[id].timestamp >= old(clock)
      ensures ParentNamed(old(forest), parent) && Childless(forest, id)
      ensures Comps(forest, id) == ParentComps(old(forest), parent) + [meta[FILE_NAME]]
      ensures Versions(forest) ==
              if OID in meta then old(Versions(forest))[id := NewNodeVersion(Path(forest, id), forest[id])]
              else old(Versions(forest))
    {
      hide WellFormed, Comps, Versions, Path, IsIntermediate, FileName, Childless;
      ghost var f := forest;
      id := nextId;
      var n := Node(id, parent, clock, if parent == 0 then 1 else forest[parent].depth + 1, meta);
      Inserted(f, n);
      InsertedChildless(f, n);
      forest := forest[id := n];
      nextId := nextId + 1;
      clock := clock + 1;
    }

    lemma InsertedChildless(f: Forest, n: Node)
      requires WellFormed(f) && n.id !in f && n.id != 0 && Place(f, n.parent)
      ensures Childless(f[n.id := n], n.id)
    {
      hide Shaped, SingleDirectories, DistinctTimes;
      forall x | x in f ensures f[x].parent != n.id { assert Hangs(f, x); }
    }

    lemma Inserted(f: Forest, n: Node)
      requires WellFormed(f) && n.id !in f && n.id != 0 && Later(f, n.timestamp)
      requires Place(f, n.parent) && n.depth == DepthAt(f, n.parent)
      requires FILE_NAME in n.meta && SEPARATOR !in n.meta[FILE_NAME]
      requires (OID in n.meta && n.meta[OID] != "") || (n.meta.Keys == {FILE_NAME} &&
                 forall x :: x in f && IsIntermediate(f[x]) && f[x].parent == n.parent ==>
                   FileName(f[x]) != n.meta[FILE_NAME])
      ensures WellFormed(f[n.id := n])
      ensures n.parent == 0 || (n.parent in f && HasName(f[n.parent]))
      ensures Comps(f[n.id := n], n.id) == ParentComps(f, n.parent) + [n.meta[FILE_NAME]]
      ensures Versions(f[n.id := n]) ==
              if OID in n.meta then Versions(f)[n.id := NewNodeVersion(Path(f[n.id := n], n.id), n)] else Versions(f)
    {
      if IsIntermediate(n) { assert OID !in n.meta.Keys; }
      if n.parent != 0 { NamedDirectory(f[n.parent]); }
      AddNamed(f, n);
      hide WellFormed, Comps, Versions, Path;
      VersionsAfterAdd(f, n);
      InsertedPath(f, n);
    }

    lemma InsertedPath(f: Forest, n: Node)
      requires WellFormed(f) && n.id !in f && Place(f, n.parent) && HasName(n)
      requires WellFormed(f[n.id := n]) && Agree(f, f[n.id := n]) && n.parent != n.id
      ensures Comps(f[n.id := n], n.id) == ParentComps(f, n.parent) + [FileName(n)]
    {
      var g := f[n.id := n];
      CompsOf(g, n.id);
      if n.parent != 0 {
        assert FILE_NAME in f[n.parent].meta.Keys;
        CompsAgree(f, g, n.parent);
      }
    }

    /** Adds a version below a path, creating the directories that are missing. */
    method AddByPath(path: seq<string>, meta: map<string, string>) returns (id: nat)
      requires Valid() && forall c :: c in path ==> SEPARATOR !in c
      requires FILE_NAME in meta && SEPARATOR !in meta[FILE_NAME] && OID in meta && meta[OID] != ""
      modifies this
      ensures Valid() && id !in old(forest) && id in forest && Keeps(old(forest))
      ensures forest[id].meta == meta && forest[id].timestamp >= old(clock)
      ensures Childless(forest, id)
      ensures Versions(forest) ==
              old(Versions(forest))[id := NewNodeVersion(Join(path + [meta[FILE_NAME]], SEPARATOR), forest[id])]
    {
      hide WellFormed, Comps, Versions, Childless;
      var cur: nat := 0;
      for k := 0 to |path|
        invariant Valid() && Keeps(old(forest)) && old(clock) <= clock
        invariant Place(forest, cur) && ParentNamed(forest, cur) && ParentComps(forest, cur) == path[..k]
        invariant Versions(forest) == old(Versions(forest))
      {
        assert path[..k + 1] == path[..k] + [path[k]];
        cur := Descend(cur, path[k]);
      }
      assert path[..|path|] == path;
      id := Insert(cur, meta);
    }

    ghost predicate ParentNamed(f: Forest, parent: nat)
    {
      parent == 0 || (parent in f && HasName(f[parent]))
    }

    /** The directory with a name in another one, created if it is missing. */
    method Descend(parent: nat, name: string) returns (child: nat)
      requires Valid() && Place(forest, parent) && ParentNamed(forest, parent) && SEPARATOR !in name
      modifies this
      ensures Valid() && Keeps(old(forest)) && old(clock) <= clock
      ensures child != 0 && Place(forest, child) && ParentNamed(forest, child)
      ensures ParentComps(forest, child) == old(ParentComps(forest, parent)) + [name]
      ensures Versions(forest) == old(Versions(forest))
    {
      hide WellFormed, Comps, Versions;
      var found := set id | id in forest && IsIntermediate(forest[id]) && forest[id].parent == parent &&
        FileName(forest[id]) == name;
      if found != {} {
        child :| child in found;
        FoundDirectory(child);
        return;
      }
      forall x | x in forest && IsIntermediate(forest[x]) && forest[x].parent == parent
        ensures FileName(forest[x]) != name
      {
        assert x !in found;
      }
      assert map[FILE_NAME := name].Keys == {FILE_NAME};
      child := Insert(parent, map[FILE_NAME := name]);
    }

    lemma FoundDirectory(child: nat)
      requires Valid() && child in forest && IsIntermediate(forest[child])
      ensures child != 0 && HasName(forest[child]) && ParentNamed(forest, forest[child].parent)
      ensures ParentComps(forest, child) == ParentComps(forest, forest[child].parent) + [FileName(forest[child])]
    {
      assert Hangs(forest, child);
      NamedDirectory(forest[child]);
      CompsOf(forest, child);
    }

    lemma NamedDirectory(n: Node)
      requires IsIntermediate(n)
      ensures HasName(n)
    {
      assert FILE_NAME in n.meta.Keys;
    }

    /** Replaces the attributes of a node, which stays where it is and gets the current time. */
    method Move(id: nat, parent: nat, meta: map<string, string>)
      requires Valid() && id in forest && parent == forest[id].parent
      requires if IsVersion(forest[id]) then
                 FILE_NAME in meta && meta[FILE_NAME] == FileName(forest[id]) && OID in meta && meta[OID] != ""
               else !HasName(forest[id]) && FILE_NAME !in meta
      modifies this
      ensures Valid() && forest.Keys == old(forest.Keys) && forest[id].meta == meta && forest[id].parent == parent
      ensures forall x :: x in forest && x != id ==> forest[x] == old(forest)[x]
      ensures forest[id].timestamp >= old(clock)
      ensures Versions(forest) ==
              if old(IsVersion(forest[id])) then
                old(Versions(forest))[id := NewNodeVersion(old(Path(forest, id)), forest[id])]
              else old(Versions(forest))
    {
      hide WellFormed, Versions, Path, Comps;
      ghost var f := forest;
      var n := Node(id, parent, clock, forest[id].depth, meta);
      Moved(f, n);
      forest := forest[id := n];
      clock := clock + 1;
    }

    lemma Moved(f: Forest, n: Node)
      requires WellFormed(f) && n.id in f && Later(f, n.timestamp)
      requires n.parent == f[n.id].parent && n.depth == f[n.id].depth && FileName(n) == FileName(f[n.id])
      requires (IsVersion(n) && IsVersion(f[n.id])) || (!HasName(n) && !HasName(f[n.id]))
      ensures WellFormed(f[n.id := n])
      ensures Versions(f[n.id := n]) ==
              if IsVersion(n) then Versions(f)[n.id := NewNodeVersion(Path(f, n.id), n)] else Versions(f)
    {
      Replace(f, n);
      hide WellFormed, Comps, Versions, Path;
      VersionsAfterAdd(f, n);
      if HasName(n) { PathStays(f, f[n.id := n], n.id); }
    }

    /** Removes a node with everything below it. */
    method Remove(id: nat) returns (ok: bool)
      requires Valid()
      modifies this
      ensures Valid() && (ok <==> id in old(forest))
      ensures !ok ==> forest == old(forest)
      ensures ok && (old(IsVersion(forest[id])) || !old(HasName(forest[id]))) ==>
                Versions(forest) == old(Versions(forest)) - {id}
      ensures ok ==> forest == old(forest) - old(TreeOf(forest, id))
      ensures ok ==> Versions(forest) == old(Versions(forest)) - old(TreeOf(forest, id))
    {
      if id !in forest {
        return false;
      }
      hide WellFormed, Versions, Comps, InTree, Listing, Ids, IsVersion, HasName;
      var nodes := GetSubTree(id);
      RemoveAll(id, nodes, set n | n in nodes :: n.id);
      ok := true;
    }

    method RemoveAll(ghost root: nat, ghost nodes: seq<Node>, removed: set<nat>)
      requires Valid() && root in forest && Listing(forest, nodes, root) && removed == Ids(nodes)
      requires forall id :: id in forest && InTree(forest, root, id) ==> forest[id] in nodes
      modifies this
      ensures Valid() && forest == old(forest) - removed
      ensures removed == old(TreeOf(forest, root)) && Versions(forest) == old(Versions(forest)) - removed
      ensures old(IsVersion(forest[root])) || !old(HasName(forest[root])) ==>
                Versions(forest) == old(Versions(forest)) - {root}
    {
      hide WellFormed, Versions, Comps, InTree, Listing, Ids, IsVersion, HasName;
      Removed(forest, nodes, root, removed);
      forest := forest - removed;
    }

    lemma Removed(f: Forest, nodes: seq<Node>, root: nat, removed: set<nat>)
      requires WellFormed(f) && root in f && Listing(f, nodes, root)
      requires forall id :: id in f && InTree(f, root, id) ==> f[id] in nodes
      requires removed == Ids(nodes)
      ensures WellFormed(f - removed) && removed == TreeOf(f, root) && Versions(f - removed) == Versions(f) - removed
      ensures IsVersion(f[root]) || !HasName(f[root]) ==> Versions(f - removed) == Versions(f) - {root}
    {
      hide Versions, Comps, InTree, WellFormed;
      ListedIds(f, nodes, root);
      assert removed == TreeOf(f, root);
      RemoveTree(f, root, removed);
      VersionsAfterRemove(f, removed);
      if IsVersion(f[root]) || !HasName(f[root]) {
        RemovedVersions(f, root, removed);
      }
    }

    lemma ListedIds(f: Forest, nodes: seq<Node>, rootID: nat)
      requires WellFormed(f) && rootID in f && Listing(f, nodes, rootID)
      requires forall id :: id in f && InTree(f, rootID, id) ==> f[id] in nodes
      ensures forall id :: id in Ids(nodes) <==> id in f && InTree(f, rootID, id)
    {
      hide InTree;
      forall id | id in f && InTree(f, rootID, id) ensures id in Ids(nodes) {
        assert Hangs(f, id);
        assert f[id] in nodes;
      }
    }

    lemma RemovedVersions(f: Forest, root: nat, removed: set<nat>)
      requires WellFormed(f) && root in f && (IsVersion(f[root]) || !HasName(f[root]))
      requires forall id :: id in removed <==> id in f && InTree(f, root, id)
      ensures Versions(f) - removed == Versions(f) - {root}
    {
      hide WellFormed, Versions, InTree, Comps, IsVersion, HasName;
      assert InTree(f, root, root) by { InOwnTree(f, root); }
      var vs := Versions(f);
      forall id | id in vs && id in removed ensures id == root {
        VersionKeys(f, id);
        OnlyItself(f, root, id);
      }
      assert (vs - removed).Keys == (vs - {root}).Keys;
    }

    lemma InOwnTree(f: Forest, root: nat)
      requires WellFormed(f) && root in f
      ensures InTree(f, root, root)
    {
    }

    lemma VersionKeys(f: Forest, id: nat)
      requires WellFormed(f)
      ensures id in Versions(f) <==> id in f && IsVersion(f[id])
    {
    }
  }
}
