/** When the gateway's caches agree with the trees of its buckets, and what keeps them so. */
module Coherence {
  import opened Caches
  import opened Forests
  import opened Strings
  import opened VersionStores
  import opened Wrappers

  type Tree = map<nat, NodeVersion>

  /** A version that a list of a prefix has to have. */
  ghost predicate Listed(t: Tree, v: NodeVersion, prefix: string, latestOnly: bool)
  {
    && v.id in t && v == t[v.id] && HasPrefix(v.filePath, prefix)
    && (latestOnly ==> !v.isDeleteMarker && IsLatest(t, v))
  }

  /** A list with exactly these versions, each once. */
  ghost predicate ListOf(list: seq<NodeVersion>, t: Tree, prefix: string, latestOnly: bool)
  {
    && (forall i, j :: 0 <= i < j < |list| ==> list[i] != list[j])
    && forall v :: v in list <==> Listed(t, v, prefix, latestOnly)
  }

  /** The latest version of an object. */
  ghost predicate Latest(t: Tree, id: nat, name: string)
  {
    id in t && t[id].filePath == name && IsLatest(t, t[id])
  }

  ghost predicate Describes(info: ObjectInfo, v: NodeVersion, b: Bucket)
  {
    info == ObjectInfo(b.cid, b.name, v.filePath, v.oid, v.id, v.isUnversioned)
  }

  ghost predicate HasOid(t: Tree, oid: string)
  {
    exists id :: id in t && t[id].oid == oid
  }

  /**
   A tree of a bucket: versions under their node ids with object ids of their own, at most one null version
   per path, no two versions of a path equally old.
   */
  ghost predicate ValidTree(t: Tree)
  {
    OwnIds(t) && OwnOids(t) && OwnTimes(t) && OneNullVersion(t)
  }

  ghost predicate OwnIds(t: Tree)
  {
    forall id :: id in t ==> t[id].id == id
  }

  ghost predicate OwnOids(t: Tree)
  {
    forall a, b :: a in t && b in t && t[a].oid == t[b].oid ==> a == b
  }

  ghost predicate OwnTimes(t: Tree)
  {
    forall a, b :: a in t && b in t && t[a].filePath == t[b].filePath && t[a].timestamp == t[b].timestamp ==> a == b
  }

  /**
   What a name in the cache may point to: the latest version of the object, not a delete marker; or an object
   that is neither in the tree nor in the cache.
   */
  ghost predicate NameAgrees(a: Address, name: string, b: Bucket, t: Tree, objects: ObjectCache)
  {
    && a.cid == b.cid
    && (forall id :: id in t && t[id].oid == a.oid ==> Latest(t, id, name) && !t[id].isDeleteMarker)
    && (!HasOid(t, a.oid) ==> a !in objects)
  }

  /** Cached lists are right; one without versions is never answered, so it may be anything. */
  ghost predicate ListsAgree(b: Bucket, t: Tree, lists: ListCache)
  {
    forall k :: k in lists && k.cid == b.cid && lists[k] != [] ==> ListOf(lists[k], t, k.prefix, k.latestOnly)
  }

  ghost predicate NamesAgree(b: Bucket, t: Tree, names: NameCache, objects: ObjectCache)
  {
    forall name: string :: NiceName(b.name, name) in names ==>
      NameAgrees(names[NiceName(b.name, name)], name, b, t, objects)
  }

  ghost predicate ObjectsAgree(b: Bucket, t: Tree, objects: ObjectCache)
  {
    && (forall a :: a in objects ==> AddressOf(objects[a]) == a)
    && (forall id :: id in t && Address(b.cid, t[id].oid) in objects ==>
      Describes(objects[Address(b.cid, t[id].oid)], t[id], b))
  }

  ghost predicate Agree(b: Bucket, t: Tree, lists: ListCache, names: NameCache,
                        objects: ObjectCache)
  {
    ListsAgree(b, t, lists) && NamesAgree(b, t, names, objects) && ObjectsAgree(b, t, objects)
  }

  /** Trees that differ only in the versions of one object. */
  ghost predicate SameElsewhere(t: Tree, u: Tree, name: string)
  {
    && (forall id :: id in t && t[id].filePath != name ==> id in u && u[id] == t[id])
    && (forall id :: id in u && u[id].filePath != name ==> id in t && t[id] == u[id])
  }

  lemma ElsewhereLatest(t: Tree, u: Tree, name: string, id: nat)
    requires SameElsewhere(t, u, name) && id in t && t[id].filePath != name
    ensures id in u && u[id] == t[id] && (IsLatest(u, u[id]) <==> IsLatest(t, t[id]))
  {
  }

  lemma ElsewhereListed(t: Tree, u: Tree, name: string, list: seq<NodeVersion>, prefix: string, latestOnly: bool)
    requires SameElsewhere(t, u, name) && !HasPrefix(name, prefix) && ListOf(list, t, prefix, latestOnly)
    ensures ListOf(list, u, prefix, latestOnly)
  {
    forall v ensures Listed(t, v, prefix, latestOnly) <==> Listed(u, v, prefix, latestOnly) {
      if v.id in t && t[v.id].filePath != name { ElsewhereLatest(t, u, name, v.id); }
      if v.id in u && u[v.id].filePath != name { ElsewhereLatest(u, t, name, v.id); }
    }
  }

  /** Lists stay right when those that a changed object is on are removed. */
  lemma CleanedAgree(b: Bucket, t: Tree, u: Tree, name: string, lists: ListCache)
    requires ListsAgree(b, t, lists) && SameElsewhere(t, u, name)
    ensures ListsAgree(b, u, Cleaned(lists, name, b.cid))
  {
    hide ListOf;
    forall k | k in Cleaned(lists, name, b.cid) && k.cid == b.cid && lists[k] != []
      ensures ListOf(lists[k], u, k.prefix, k.latestOnly)
    {
      ElsewhereListed(t, u, name, lists[k], k.prefix, k.latestOnly);
    }
  }

  // ---- adding a version ----

  /** The tree after a version with a new object id was stored, under a new node or that of the null version. */
  ghost predicate Stores(t: Tree, u: Tree, v: NewVersion, id: nat)
  {
    && Added(t, u, v, id) && !HasOid(t, v.oid)
    && (v.isUnversioned ==> forall x :: IsNull(t, x, v.filePath) ==> x == id)
    && (id in t ==> v.isUnversioned && IsNull(t, id, v.filePath))
  }

  lemma StoredTree(t: Tree, u: Tree, v: NewVersion, id: nat)
    requires ValidTree(t) && Stores(t, u, v, id)
    ensures ValidTree(u) && SameElsewhere(t, u, v.filePath)
    ensures Latest(u, id, v.filePath) && u[id].oid == v.oid && u[id].id == id
    ensures u[id].isDeleteMarker == v.isDeleteMarker && u[id].isUnversioned == v.isUnversioned
    ensures forall x :: x in u && x != id ==> x in t && u[x] == t[x]
  {
    StoredIs(t, u, v, id);
    AddedKeepsOneNull(t, u, v, id);
    hide OneNullVersion, IsNull, Added, Stores, OwnOids, OwnTimes;
    StoredOwn(t, u, id);
    StoredElsewhere(t, u, v.filePath, id);
  }

  lemma StoredElsewhere(t: Tree, u: Tree, name: string, id: nat)
    requires id in u && u == t[id := u[id]] && u[id].filePath == name && (id in t ==> t[id].filePath == name)
    requires forall x :: x in t ==> t[x].timestamp < u[id].timestamp
    ensures SameElsewhere(t, u, name) && Latest(u, id, name)
  {
  }

  lemma StoredOwn(t: Tree, u: Tree, id: nat)
    requires id in u && u == t[id := u[id]] && !HasOid(t, u[id].oid)
    requires forall x :: x in t ==> t[x].timestamp < u[id].timestamp
    ensures OwnOids(t) ==> OwnOids(u)
    ensures OwnTimes(t) ==> OwnTimes(u)
  {
    forall x | x in t ensures t[x].oid != u[id].oid {}
  }

  /** The stored version: everything else stays. */
  lemma StoredIs(t: Tree, u: Tree, v: NewVersion, id: nat)
    requires Stores(t, u, v, id)
    ensures id in u && u == t[id := u[id]] && u[id].id == id && u[id].oid == v.oid && u[id].filePath == v.filePath
    ensures u[id].isDeleteMarker == v.isDeleteMarker && u[id].isUnversioned == v.isUnversioned
    ensures forall x :: x in t ==> t[x].timestamp < u[id].timestamp
    ensures id in t ==> t[id].filePath == v.filePath
  {
  }

  lemma RemovedTree(t: Tree, id: nat)
    requires ValidTree(t) && id in t
    ensures ValidTree(t - {id}) && SameElsewhere(t, t - {id}, t[id].filePath)
  {
  }

  /** An address that no tree and no cache has met. */
  ghost predicate Unseen(a: Address, t: Tree, names: NameCache, objects: ObjectCache)
  {
    a !in objects && (forall n :: n in names ==> names[n] != a) && !HasOid(t, a.oid)
  }

  /** An object of another name keeps agreeing. */
  lemma NameElsewhere(a: Address, other: string, b: Bucket, t: Tree, u: Tree, name: string,
                      objects: ObjectCache, objects': ObjectCache)
    requires NameAgrees(a, other, b, t, objects) && SameElsewhere(t, u, name) && other != name
    requires forall id :: id in u && u[id].oid == a.oid ==> id in t && t[id].oid == a.oid
    requires a in objects' ==> a in objects
    ensures NameAgrees(a, other, b, u, objects')
  {
    forall id | id in u && u[id].oid == a.oid ensures Latest(u, id, other) && !u[id].isDeleteMarker {
      ElsewhereLatest(t, u, name, id);
    }
    forall id | id in t && t[id].oid == a.oid ensures HasOid(u, a.oid) {
      ElsewhereLatest(t, u, name, id);
    }
  }

  /** Storing a version and caching its object and name. */
  lemma PutAgrees(b: Bucket, t: Tree, u: Tree, v: NewVersion, id: nat, info: ObjectInfo,
                  lists: ListCache, names: NameCache, objects: ObjectCache)
    requires ValidTree(t) && Stores(t, u, v, id) && !v.isDeleteMarker && Agree(b, t, lists, names, objects)
    requires Unseen(Address(b.cid, v.oid), t, names, objects) && id in u && Describes(info, u[id], b)
    ensures Agree(b, u, Cleaned(lists, v.filePath, b.cid), names[NiceName(b.name, v.filePath) := Address(b.cid, v.oid)],
                  objects[Address(b.cid, v.oid) := info])
  {
    hide ListOf, IsNull, OneNullVersion, Added, ValidTree, Cleaned;
    StoredTree(t, u, v, id);
    CleanedAgree(b, t, u, v.filePath, lists);
    var a := Address(b.cid, v.oid);
    OidsDiffer(u);
    PutNames(b, t, u, v, id, a, info, names, objects);
  }

  lemma OidsDiffer(t: Tree)
    requires ValidTree(t)
    ensures forall a, b :: a in t && b in t && t[a].oid == t[b].oid ==> a == b
    ensures forall id :: id in t ==> t[id].id == id
  {
  }

  lemma PutNames(b: Bucket, t: Tree, u: Tree, v: NewVersion, id: nat, a: Address, info: ObjectInfo,
                 names: NameCache, objects: ObjectCache)
    requires NamesAgree(b, t, names, objects) && SameElsewhere(t, u, v.filePath) && a == Address(b.cid, v.oid)
    requires Latest(u, id, v.filePath) && u[id].oid == v.oid && !u[id].isDeleteMarker
    requires forall x, y :: x in u && y in u && u[x].oid == u[y].oid ==> x == y
    requires forall x :: x in u && x != id ==> x in t && u[x] == t[x]
    requires Unseen(a, t, names, objects)
    ensures NamesAgree(b, u, names[NiceName(b.name, v.filePath) := a], objects[a := info])
  {
    LatestIn(u, id, v.filePath);
    hide Latest, SameElsewhere;
    var names', objects' := names[NiceName(b.name, v.filePath) := a], objects[a := info];
    forall name: string | NiceName(b.name, name) in names'
      ensures NameAgrees(names'[NiceName(b.name, name)], name, b, u, objects')
    {
      if name == v.filePath {
        assert HasOid(u, a.oid);
      } else {
        SameLength(b.name, name, v.filePath);
        NameElsewhere(names[NiceName(b.name, name)], name, b, t, u, v.filePath, objects, objects');
      }
    }
  }

  lemma SameLength(b: string, n: string, n': string)
    requires n != n'
    ensures NiceName(b, n) != NiceName(b, n')
  {
    assert NiceName(b, n)[|b| + 1..] == n && NiceName(b, n')[|b| + 1..] == n';
  }

  /** Storing a delete marker and forgetting the name. */
  lemma MarkAgrees(b: Bucket, t: Tree, u: Tree, v: NewVersion, id: nat,
                   lists: ListCache, names: NameCache, objects: ObjectCache)
    requires ValidTree(t) && Stores(t, u, v, id) && Agree(b, t, lists, names, objects)
    requires Unseen(Address(b.cid, v.oid), t, names, objects)
    ensures Agree(b, u, Cleaned(lists, v.filePath, b.cid), names - {NiceName(b.name, v.filePath)}, objects)
  {
    hide ListOf, IsNull, OneNullVersion, Added, ValidTree, Cleaned, Latest, SameElsewhere;
    StoredTree(t, u, v, id);
    CleanedAgree(b, t, u, v.filePath, lists);
    var names' := names - {NiceName(b.name, v.filePath)};
    forall name: string | NiceName(b.name, name) in names'
      ensures NameAgrees(names'[NiceName(b.name, name)], name, b, u, objects)
    {
      NameElsewhere(names[NiceName(b.name, name)], name, b, t, u, v.filePath, objects, objects);
    }
  }

  /** Removing a version, after its object was removed from the cache if it has one. */
  lemma RemoveAgrees(b: Bucket, t: Tree, id: nat,
                     lists: ListCache, names: NameCache, objects: ObjectCache)
    requires ValidTree(t) && id in t && Agree(b, t, lists, names, objects)
    requires !t[id].isDeleteMarker ==> Address(b.cid, t[id].oid) !in objects
    ensures Agree(b, t - {id}, Cleaned(lists, t[id].filePath, b.cid), names, objects)
  {
    hide ListOf, OneNullVersion, Cleaned;
    RemovedTree(t, id);
    CleanedAgree(b, t, t - {id}, t[id].filePath, lists);
    var u := t - {id};
    forall name: string | NiceName(b.name, name) in names
      ensures NameAgrees(names[NiceName(b.name, name)], name, b, u, objects)
    {
      var a := names[NiceName(b.name, name)];
      assert NameAgrees(a, name, b, t, objects);
      if t[id].oid != a.oid {
        forall x | x in t && t[x].oid == a.oid ensures HasOid(u, a.oid) { assert x in u; }
      }
    }
  }

  /** Entries may vanish. */
  lemma FewerAgree(b: Bucket, t: Tree, lists: ListCache, names: NameCache,
                   objects: ObjectCache, someLists: set<ObjectsListKey>, someNames: set<string>,
                   someObjects: set<Address>)
    requires Agree(b, t, lists, names, objects)
    ensures Agree(b, t, lists - someLists, names - someNames, objects - someObjects)
  {
    hide ListOf, Latest;
  }

  /** A list read from the tree may be cached. */
  lemma ListAgrees(b: Bucket, t: Tree, k: ObjectsListKey, list: seq<NodeVersion>,
                   lists: ListCache)
    requires ListsAgree(b, t, lists) && (k.cid == b.cid ==> ListOf(list, t, k.prefix, k.latestOnly))
    ensures ListsAgree(b, t, lists[k := list])
  {
    hide ListOf;
  }

  /** What describes a version of the tree may be cached. */
  lemma ObjectAgrees(b: Bucket, t: Tree, id: nat, info: ObjectInfo, names: NameCache, objects: ObjectCache)
    requires ValidTree(t) && id in t && Describes(info, t[id], b) && NamesAgree(b, t, names, objects)
    requires ObjectsAgree(b, t, objects)
    ensures NamesAgree(b, t, names, objects[AddressOf(info) := info])
    ensures ObjectsAgree(b, t, objects[AddressOf(info) := info])
  {
    hide Latest, OneNullVersion;
    var objects' := objects[AddressOf(info) := info];
    forall name: string | NiceName(b.name, name) in names
      ensures NameAgrees(names[NiceName(b.name, name)], name, b, t, objects')
    {
      assert NameAgrees(names[NiceName(b.name, name)], name, b, t, objects);
      assert names[NiceName(b.name, name)] == AddressOf(info) ==> HasOid(t, info.oid);
    }
  }

  /** So may the name of the latest version, if that is no delete marker. */
  lemma NameOfLatest(b: Bucket, t: Tree, id: nat, name: string, names: NameCache, objects: ObjectCache)
    requires ValidTree(t) && Latest(t, id, name) && !t[id].isDeleteMarker && NamesAgree(b, t, names, objects)
    ensures NamesAgree(b, t, names[NiceName(b.name, name) := Address(b.cid, t[id].oid)], objects)
  {
    hide Latest, OneNullVersion;
    assert id in t by { LatestIn(t, id, name); }
    var names' := names[NiceName(b.name, name) := Address(b.cid, t[id].oid)];
    forall n: string | NiceName(b.name, n) in names' ensures NameAgrees(names'[NiceName(b.name, n)], n, b, t, objects) {
      if n != name {
        SameLength(b.name, n, name);
      } else {
        assert HasOid(t, t[id].oid);
      }
    }
  }

  lemma LatestIn(t: Tree, id: nat, name: string)
    requires Latest(t, id, name)
    ensures id in t && t[id].filePath == name
  {
  }

  /** Caches that agree about what concerns one bucket. */
  ghost predicate SameFor(b: Bucket, lists: ListCache, names: NameCache, objects: ObjectCache,
                          lists': ListCache, names': NameCache, objects': ObjectCache)
  {
    && (forall k :: k in lists' && k.cid == b.cid ==> k in lists && lists'[k] == lists[k])
    && (forall n: string :: NiceName(b.name, n) in names' ==>
          NiceName(b.name, n) in names && names'[NiceName(b.name, n)] == names[NiceName(b.name, n)])
    && (forall a :: a in objects' && a.cid == b.cid ==> a in objects && objects'[a] == objects[a])
    && (forall a :: a in objects' ==> AddressOf(objects'[a]) == a)
  }

  /** What happens to other buckets leaves a bucket's entries right. */
  lemma OthersAgree(b: Bucket, t: Tree, lists: ListCache, names: NameCache, objects: ObjectCache,
                    lists': ListCache, names': NameCache, objects': ObjectCache)
    requires Agree(b, t, lists, names, objects) && SameFor(b, lists, names, objects, lists', names', objects')
    ensures Agree(b, t, lists', names', objects')
  {
    hide ListOf, Latest;
  }

  /** A cached name that is in the object cache is that of the latest version, which is no delete marker. */
  lemma HitIsLatest(b: Bucket, t: Tree, name: string, names: NameCache, objects: ObjectCache)
    requires NamesAgree(b, t, names, objects) && ObjectsAgree(b, t, objects)
    requires NiceName(b.name, name) in names && names[NiceName(b.name, name)] in objects
    ensures exists id :: Latest(t, id, name) && !t[id].isDeleteMarker &&
                         Describes(objects[names[NiceName(b.name, name)]], t[id], b)
  {
    hide Describes;
    var a := names[NiceName(b.name, name)];
    assert NameAgrees(a, name, b, t, objects);
    var id :| id in t && t[id].oid == a.oid;
    assert a == Address(b.cid, t[id].oid);
    assert Latest(t, id, name) && !t[id].isDeleteMarker && Describes(objects[a], t[id], b);
  }

  // ---- all buckets ----

  /** The trees of all buckets, by container, and the caches. */
  datatype View = View(trees: map<string, Tree>, lists: ListCache, names: NameCache,
                       objects: ObjectCache)

  /** Buckets have names of their own, without a slash. */
  ghost predicate ValidBuckets(buckets: map<string, string>)
  {
    && (forall c :: c in buckets ==> '/' !in buckets[c])
    && (forall c, d :: c in buckets && d in buckets && buckets[c] == buckets[d] ==> c == d)
  }

  ghost predicate AgreeFor(b: Bucket, w: View)
    requires b.cid in w.trees
  {
    ValidTree(w.trees[b.cid]) && Agree(b, w.trees[b.cid], w.lists, w.names, w.objects)
  }

  ghost predicate Coherent(buckets: map<string, string>, w: View)
  {
    && ValidBuckets(buckets) && w.trees.Keys == buckets.Keys
    && (forall c :: c in buckets ==> AgreeFor(Bucket(c, buckets[c]), w))
    && (forall a :: a in w.objects ==> AddressOf(w.objects[a]) == a)
  }

  predicate Has(buckets: map<string, string>, b: Bucket)
  {
    b.cid in buckets && buckets[b.cid] == b.name
  }

  lemma AgreesFor(buckets: map<string, string>, b: Bucket, w: View)
    requires Coherent(buckets, w) && Has(buckets, b) && b.cid in w.trees
    ensures AgreeFor(b, w) && forall a :: a in w.objects ==> AddressOf(w.objects[a]) == a
  {
    hide Agree, ValidTree;
    assert AgreeFor(Bucket(b.cid, buckets[b.cid]), w);
  }

  /** Only what concerns one bucket, and of its names only one, is new. */
  ghost predicate OnlyFor(b: Bucket, name: string, w: View, w': View)
  {
    && (forall k :: k in w'.lists && k.cid != b.cid ==> k in w.lists && w'.lists[k] == w.lists[k])
    && (forall n :: n in w'.names && n != NiceName(b.name, name) ==> n in w.names && w'.names[n] == w.names[n])
    && (forall a :: a in w'.objects && a.cid != b.cid ==> a in w.objects && w'.objects[a] == w.objects[a])
    && (forall a :: a in w'.objects ==> AddressOf(w'.objects[a]) == a)
  }

  lemma OtherKept(b: Bucket, name: string, w: View, w': View, c: Bucket)
    requires '/' !in b.name && '/' !in c.name && b.cid != c.cid && b.name != c.name && OnlyFor(b, name, w, w')
    ensures SameFor(c, w.lists, w.names, w.objects, w'.lists, w'.names, w'.objects)
  {
    forall n: string ensures NiceName(c.name, n) != NiceName(b.name, name) {
      if NiceName(c.name, n) == NiceName(b.name, name) { NiceNamesDiffer(c.name, n, b.name, name); }
    }
  }

  /** If one bucket's entries are right after a change that concerns only that bucket, all are. */
  lemma StaysCoherent(buckets: map<string, string>, b: Bucket, name: string, w: View, w': View)
    requires Coherent(buckets, w) && Has(buckets, b) && OnlyFor(b, name, w, w')
    requires b.cid in w'.trees && w'.trees == w.trees[b.cid := w'.trees[b.cid]] && AgreeFor(b, w')
    ensures Coherent(buckets, w')
  {
    hide Agree, ValidTree, OnlyFor;
    forall c | c in buckets ensures AgreeFor(Bucket(c, buckets[c]), w') {
      if c != b.cid {
        OtherKept(b, name, w, w', Bucket(c, buckets[c]));
        OthersAgree(Bucket(c, buckets[c]), w.trees[c], w.lists, w.names, w.objects, w'.lists, w'.names, w'.objects);
      }
    }
    assert forall a :: a in w'.objects ==> AddressOf(w'.objects[a]) == a by { OwnAddresses(b, name, w, w'); }
  }

  lemma SameTrees(buckets: map<string, string>, b: Bucket, name: string, w: View, w': View)
    requires Coherent(buckets, w) && Has(buckets, b) && OnlyFor(b, name, w, w')
    requires b.cid in w'.trees && w'.trees == w.trees && AgreeFor(b, w')
    ensures Coherent(buckets, w')
  {
    hide Coherent, OnlyFor, AgreeFor;
    assert w.trees[b.cid := w.trees[b.cid]] == w.trees;
    StaysCoherent(buckets, b, name, w, w');
  }

  lemma OwnAddresses(b: Bucket, name: string, w: View, w': View)
    requires OnlyFor(b, name, w, w')
    ensures forall a :: a in w'.objects ==> AddressOf(w'.objects[a]) == a
  {
  }

  /** A version was stored. */
  ghost predicate StoredSome(t: Tree, u: Tree, v: NewVersion)
  {
    exists id :: Stores(t, u, v, id)
  }

  function InfoOf(b: Bucket, v: NodeVersion): ObjectInfo
  {
    ObjectInfo(b.cid, b.name, v.filePath, v.oid, v.id, v.isUnversioned)
  }

  lemma PutKeeps(buckets: map<string, string>, b: Bucket, w: View, w': View, v: NewVersion, id: nat, info: ObjectInfo)
    requires Coherent(buckets, w) && Has(buckets, b) && b.cid in w.trees && !v.isDeleteMarker
    requires Unseen(Address(b.cid, v.oid), w.trees[b.cid], w.names, w.objects)
    requires b.cid in w'.trees && Stores(w.trees[b.cid], w'.trees[b.cid], v, id)
    requires info == ObjectInfo(b.cid, b.name, v.filePath, v.oid, id, v.isUnversioned)
    requires w' == View(w.trees[b.cid := w'.trees[b.cid]], Cleaned(w.lists, v.filePath, b.cid),
                        w.names[NiceName(b.name, v.filePath) := Address(b.cid, v.oid)],
                        w.objects[Address(b.cid, v.oid) := info])
    ensures Coherent(buckets, w')
  {
    AgreesFor(buckets, b, w);
    hide Coherent, Agree, ValidTree, Stores, Unseen, OnlyFor, Latest, SameElsewhere, Cleaned;
    PutOnly(b, v.filePath, w, w', info);
    var t, u := w.trees[b.cid], w'.trees[b.cid];
    StoredIs(t, u, v, id);
    StoredTree(t, u, v, id);
    PutAgrees(b, t, u, v, id, info, w.lists, w.names, w.objects);
    StaysCoherent(buckets, b, v.filePath, w, w');
  }

  lemma PutOnly(b: Bucket, name: string, w: View, w': View, info: ObjectInfo)
    requires (forall a :: a in w.objects ==> AddressOf(w.objects[a]) == a) && info.cid == b.cid
    requires w'.lists == Cleaned(w.lists, name, b.cid) && w'.names == w.names[NiceName(b.name, name) := AddressOf(info)]
    requires w'.objects == w.objects[AddressOf(info) := info]
    ensures OnlyFor(b, name, w, w')
  {
  }

  lemma ListsOnly(b: Bucket, name: string, w: View, w': View)
    requires forall a :: a in w.objects ==> AddressOf(w.objects[a]) == a
    requires w'.lists == Cleaned(w.lists, name, b.cid) && w'.names == w.names && w'.objects == w.objects
    ensures OnlyFor(b, "", w, w')
  {
  }

  lemma MarkKeeps(buckets: map<string, string>, b: Bucket, w: View, w': View, v: NewVersion, id: nat)
    requires Coherent(buckets, w) && Has(buckets, b) && b.cid in w.trees
    requires Unseen(Address(b.cid, v.oid), w.trees[b.cid], w.names, w.objects)
    requires b.cid in w'.trees && Stores(w.trees[b.cid], w'.trees[b.cid], v, id)
    requires w' == View(w.trees[b.cid := w'.trees[b.cid]], Cleaned(w.lists, v.filePath, b.cid),
                        w.names - {NiceName(b.name, v.filePath)}, w.objects)
    ensures Coherent(buckets, w')
  {
    AgreesFor(buckets, b, w);
    hide Coherent, Agree, ValidTree, Stores, Unseen;
    assert OnlyFor(b, v.filePath, w, w');
    hide OnlyFor, Latest, SameElsewhere;
    var t, u := w.trees[b.cid], w'.trees[b.cid];
    StoredTree(t, u, v, id);
    MarkAgrees(b, t, u, v, id, w.lists, w.names, w.objects);
    StaysCoherent(buckets, b, v.filePath, w, w');
  }

  lemma RemoveKeeps(buckets: map<string, string>, b: Bucket, w: View, w': View, id: nat)
    requires Coherent(buckets, w) && Has(buckets, b) && b.cid in w.trees && id in w.trees[b.cid]
    requires !w.trees[b.cid][id].isDeleteMarker ==> Address(b.cid, w.trees[b.cid][id].oid) !in w.objects
    requires w' == View(w.trees[b.cid := w.trees[b.cid] - {id}], Cleaned(w.lists, w.trees[b.cid][id].filePath, b.cid),
                        w.names, w.objects)
    ensures Coherent(buckets, w')
  {
    AgreesFor(buckets, b, w);
    hide Coherent, Agree, ValidTree, OnlyFor, SameElsewhere, Cleaned;
    ListsOnly(b, w.trees[b.cid][id].filePath, w, w');
    RemovedTree(w.trees[b.cid], id);
    RemoveAgrees(b, w.trees[b.cid], id, w.lists, w.names, w.objects);
    StaysCoherent(buckets, b, "", w, w');
  }

  lemma EvictKeeps(buckets: map<string, string>, w: View, someLists: set<ObjectsListKey>, someNames: set<string>,
                   someObjects: set<Address>)
    requires Coherent(buckets, w)
    ensures Coherent(buckets, View(w.trees, w.lists - someLists, w.names - someNames, w.objects - someObjects))
  {
    hide Agree, ValidTree;
    var w' := View(w.trees, w.lists - someLists, w.names - someNames, w.objects - someObjects);
    forall c | c in buckets ensures AgreeFor(Bucket(c, buckets[c]), w') {
      FewerAgree(Bucket(c, buckets[c]), w.trees[c], w.lists, w.names, w.objects, someLists, someNames, someObjects);
    }
  }

  lemma ListKeeps(buckets: map<string, string>, b: Bucket, w: View, k: ObjectsListKey, list: seq<NodeVersion>)
    requires Coherent(buckets, w) && Has(buckets, b) && k.cid == b.cid && b.cid in w.trees
    requires ListOf(list, w.trees[b.cid], k.prefix, k.latestOnly)
    ensures Coherent(buckets, w.(lists := w.lists[k := list]))
  {
    AgreesFor(buckets, b, w);
    hide Coherent, ValidTree, ListsAgree, NamesAgree, ObjectsAgree, ListOf;
    var w' := w.(lists := w.lists[k := list]);
    assert OnlyFor(b, "", w, w');
    hide OnlyFor;
    ListAgrees(b, w.trees[b.cid], k, list, w.lists);
    SameTrees(buckets, b, "", w, w');
  }

  lemma ObjectKeeps(buckets: map<string, string>, b: Bucket, w: View, id: nat)
    requires Coherent(buckets, w) && Has(buckets, b) && b.cid in w.trees && id in w.trees[b.cid]
    ensures var info := InfoOf(b, w.trees[b.cid][id]);
            Coherent(buckets, w.(objects := w.objects[AddressOf(info) := info]))
  {
    AgreesFor(buckets, b, w);
    hide Coherent, ValidTree, ListsAgree, NamesAgree, ObjectsAgree;
    var info := InfoOf(b, w.trees[b.cid][id]);
    var w' := w.(objects := w.objects[AddressOf(info) := info]);
    hide OnlyFor;
    ObjectOnly(b, w, w', info);
    ObjectAgrees(b, w.trees[b.cid], id, info, w.names, w.objects);
    SameTrees(buckets, b, "", w, w');
  }

  lemma ObjectOnly(b: Bucket, w: View, w': View, info: ObjectInfo)
    requires (forall a :: a in w.objects ==> AddressOf(w.objects[a]) == a) && info.cid == b.cid
    requires w' == w.(objects := w.objects[AddressOf(info) := info])
    ensures OnlyFor(b, "", w, w')
  {
  }

  lemma NameKeeps(buckets: map<string, string>, b: Bucket, w: View, id: nat, name: string)
    requires Coherent(buckets, w) && Has(buckets, b) && b.cid in w.trees
    requires Latest(w.trees[b.cid], id, name) && !w.trees[b.cid][id].isDeleteMarker
    ensures Coherent(buckets, w.(names := w.names[NiceName(b.name, name) := Address(b.cid, w.trees[b.cid][id].oid)]))
  {
    AgreesFor(buckets, b, w);
    LatestIn(w.trees[b.cid], id, name);
    hide Coherent, ValidTree, ListsAgree, NamesAgree, ObjectsAgree, Latest;
    var w' := w.(names := w.names[NiceName(b.name, name) := Address(b.cid, w.trees[b.cid][id].oid)]);
    assert OnlyFor(b, name, w, w');
    hide OnlyFor;
    NameOfLatest(b, w.trees[b.cid], id, name, w.names, w.objects);
    SameTrees(buckets, b, name, w, w');
  }

  // ---- a version that was stored without telling the caches ----

  /**
   No cached list with versions has a prefix of the object's name, and the name is not cached, or points to an
   object that is not cached and that is not in the tree or is the null version about to be replaced.
   */
  ghost predicate NothingCached(b: Bucket, name: string, unversioned: bool, w: View)
    requires b.cid in w.trees
  {
    && (forall k :: k in w.lists && w.lists[k] != [] ==> !Contains(k, name, b.cid))
    && (NiceName(b.name, name) in w.names ==>
          PointsNowhere(w.names[NiceName(b.name, name)], name, unversioned, w.trees[b.cid], w.objects))
  }

  ghost predicate PointsNowhere(a: Address, name: string, unversioned: bool, t: Tree, objects: ObjectCache)
  {
    a !in objects && forall x :: x in t && t[x].oid == a.oid ==> unversioned && IsNull(t, x, name)
  }

  lemma StoredListed(t: Tree, u: Tree, v: NewVersion, id: nat, list: seq<NodeVersion>, prefix: string, latestOnly: bool)
    requires ValidTree(t) && Stores(t, u, v, id) && !v.isDeleteMarker && ListOf(list, t, prefix, latestOnly)
    ensures ListOf(list, u, prefix, latestOnly) <==> !HasPrefix(v.filePath, prefix)
  {
    StoredIs(t, u, v, id);
    StoredTree(t, u, v, id);
    hide Stores, ValidTree;
    if HasPrefix(v.filePath, prefix) {
      assert Listed(u, u[id], prefix, latestOnly);
      forall x | x in list ensures x.oid != v.oid { assert Listed(t, x, prefix, latestOnly); }
      assert u[id] !in list;
    } else {
      ElsewhereListed(t, u, v.filePath, list, prefix, latestOnly);
    }
  }

  /** An object that was answered for its name is still the right answer exactly if no version was stored of it. */
  lemma StoredLast(b: Bucket, t: Tree, u: Tree, v: NewVersion, id: nat, name: string, names: NameCache,
                   objects: ObjectCache)
    requires ValidTree(t) && Stores(t, u, v, id) && !v.isDeleteMarker
    requires NamesAgree(b, t, names, objects) && ObjectsAgree(b, t, objects)
    requires NiceName(b.name, name) in names && names[NiceName(b.name, name)] in objects
    ensures var info := objects[names[NiceName(b.name, name)]];
            (exists x :: Latest(u, x, name) && !u[x].isDeleteMarker && Describes(info, u[x], b)) <==> name != v.filePath
  {
    StoredIs(t, u, v, id);
    StoredTree(t, u, v, id);
    assert !HasOid(t, v.oid);
    hide Stores, NamesAgree, ObjectsAgree;
    HitIsLatest(b, t, name, names, objects);
    var info := objects[names[NiceName(b.name, name)]];
    var x :| Latest(t, x, name) && !t[x].isDeleteMarker && Describes(info, t[x], b);
    assert HasOid(t, info.oid);
    if name == v.filePath {
      forall y | Latest(u, y, name) ensures u[y].oid != info.oid { NewestIs(u, id, y, name); }
    } else {
      ElsewhereLatest(t, u, v.filePath, x);
      assert Latest(u, x, name);
    }
  }

  lemma NewestIs(t: Tree, id: nat, x: nat, name: string)
    requires ValidTree(t) && Latest(t, id, name) && Latest(t, x, name)
    ensures x == id
  {
    assert t[x].timestamp <= t[id].timestamp && t[id].timestamp <= t[x].timestamp;
  }

  lemma StoredNamed(b: Bucket, t: Tree, u: Tree, v: NewVersion, id: nat, a: Address, objects: ObjectCache)
    requires ValidTree(t) && Stores(t, u, v, id) && a.oid != v.oid && NameAgrees(a, v.filePath, b, t, objects)
    ensures NameAgrees(a, v.filePath, b, u, objects) <==> PointsNowhere(a, v.filePath, v.isUnversioned, t, objects)
  {
    StoredIs(t, u, v, id);
    StoredTree(t, u, v, id);
    NullsOf(t, v, id);
    hide Stores, ValidTree, SameElsewhere, OneNullVersion;
    PointsAway(t, u, v.filePath, id, a.oid);
    if exists x :: x in t && x != id && t[x].oid == a.oid {
      assert HasOid(u, a.oid);
    } else {
      PointsAtNull(t, u, id, a.oid);
    }
    hide Latest, IsNull;
  }

  /** No remaining version of another object id is the latest one of the path any more. */
  lemma PointsAway(t: Tree, u: Tree, name: string, id: nat, oid: string)
    requires id in u && u == t[id := u[id]] && u[id].filePath == name && u[id].oid != oid
    requires forall x :: x in t ==> t[x].timestamp < u[id].timestamp
    ensures forall x :: x in u && u[x].oid == oid ==> x != id && x in t && t[x].oid == oid && !Latest(u, x, name)
    ensures forall x :: x in t && x != id && t[x].oid == oid ==> x in u && u[x].oid == oid
  {
    forall x | x in u && u[x].oid == oid ensures !Latest(u, x, name) {
      assert u[x].filePath == name ==> u[x].timestamp < u[id].timestamp;
    }
  }

  lemma PointsAtNull(t: Tree, u: Tree, id: nat, oid: string)
    requires id in u && u == t[id := u[id]] && u[id].oid != oid
    requires forall x :: x in t && t[x].oid == oid ==> x == id
    ensures !HasOid(u, oid)
  {
  }

  lemma NullsOf(t: Tree, v: NewVersion, id: nat)
    requires exists u :: Stores(t, u, v, id)
    ensures id in t ==> v.isUnversioned && IsNull(t, id, v.filePath)
    ensures v.isUnversioned ==> forall x :: IsNull(t, x, v.filePath) ==> x == id
  {
  }

  /** If the caches are not told, they stay right exactly if nothing of the object is cached. */
  lemma UnlockedAgrees(buckets: map<string, string>, b: Bucket, w: View, w': View, v: NewVersion, id: nat)
    requires Coherent(buckets, w) && Has(buckets, b) && b.cid in w.trees && !v.isDeleteMarker
    requires Unseen(Address(b.cid, v.oid), w.trees[b.cid], w.names, w.objects)
    requires b.cid in w'.trees && Stores(w.trees[b.cid], w'.trees[b.cid], v, id)
    requires w' == w.(trees := w.trees[b.cid := w'.trees[b.cid]])
    ensures Coherent(buckets, w') <==> NothingCached(b, v.filePath, v.isUnversioned, w)
  {
    AgreesFor(buckets, b, w);
    var t, u := w.trees[b.cid], w'.trees[b.cid];
    SameOnly(b, v.filePath, w, w');
    hide ValidTree, Stores, ListOf, ListsAgree, NamesAgree, ObjectsAgree, Coherent, OnlyFor, Unseen;
    if Coherent(buckets, w') { AgreesFor(buckets, b, w'); }
    NotCached(b, v, t, w);
    StoredTree(t, u, v, id);
    UnlockedLists(b, t, u, v, id, w.lists);
    UnlockedNames(b, t, u, v, id, w.names, w.objects);
    UnlockedObjects(b, t, u, v, id, w.objects);
    if AgreeFor(b, w') { StaysCoherent(buckets, b, v.filePath, w, w'); }
  }

  /** A cached list with one object is right until another version is stored without telling the caches. */
  lemma UnlockedExample(v: NewVersion, id: nat, u: Tree)
    requires Stores(OneObject(), u, v, id) && !v.isDeleteMarker
    ensures var buckets, b, w := map["cid" := "bucket"], Bucket("cid", "bucket"), OneListed();
            && Coherent(buckets, w) && !NothingCached(b, v.filePath, v.isUnversioned, w)
            && !Coherent(buckets, w.(trees := w.trees["cid" := u]))
  {
    var b, w, k := Bucket("cid", "bucket"), OneListed(), ObjectsListKey("cid", "", true);
    OneCoherent();
    assert k in w.lists && w.lists[k] != [] && Contains(k, v.filePath, "cid");
    hide Stores, ListOf, Coherent;
    UnlockedAgrees(map["cid" := "bucket"], b, w, w.(trees := w.trees["cid" := u]), v, id);
  }

  function OneObject(): Tree
  {
    map[0 := NodeVersion(0, 0, "oid", 0, "a", false, false)]
  }

  /** A bucket with one object, and the cached list of all its objects. */
  function OneListed(): View
  {
    View(map["cid" := OneObject()], map[ObjectsListKey("cid", "", true) := [OneObject()[0]]], map[], map[])
  }

  lemma OneCoherent()
    ensures Coherent(map["cid" := "bucket"], OneListed())
  {
    var t: Tree := OneObject();
    assert ListOf([t[0]], t, "", true);
    assert ValidTree(t);
    hide ListOf, ValidTree;
    assert ListsAgree(Bucket("cid", "bucket"), t, OneListed().lists);
    assert AgreeFor(Bucket("cid", "bucket"), OneListed());
  }

  lemma SameOnly(b: Bucket, name: string, w: View, w': View)
    requires forall a :: a in w.objects ==> AddressOf(w.objects[a]) == a
    requires w'.lists == w.lists && w'.names == w.names && w'.objects == w.objects
    ensures OnlyFor(b, name, w, w')
  {
  }

  lemma NotCached(b: Bucket, v: NewVersion, t: Tree, w: View)
    requires Unseen(Address(b.cid, v.oid), t, w.names, w.objects)
    ensures Address(b.cid, v.oid) !in w.objects
  {
  }

  lemma UnlockedLists(b: Bucket, t: Tree, u: Tree, v: NewVersion, id: nat, lists: ListCache)
    requires ValidTree(t) && Stores(t, u, v, id) && !v.isDeleteMarker && ListsAgree(b, t, lists)
    ensures ListsAgree(b, u, lists) <==> forall k :: k in lists && lists[k] != [] ==> !Contains(k, v.filePath, b.cid)
  {
    hide ValidTree, Stores, ListOf;
    forall k | k in lists && k.cid == b.cid && lists[k] != []
      ensures ListOf(lists[k], u, k.prefix, k.latestOnly) <==> !Contains(k, v.filePath, b.cid)
    {
      StoredListed(t, u, v, id, lists[k], k.prefix, k.latestOnly);
    }
  }

  lemma UnlockedNames(b: Bucket, t: Tree, u: Tree, v: NewVersion, id: nat, names: NameCache, objects: ObjectCache)
    requires ValidTree(t) && Stores(t, u, v, id) && NamesAgree(b, t, names, objects)
    requires Unseen(Address(b.cid, v.oid), t, names, objects)
    ensures NamesAgree(b, u, names, objects) <==>
            (NiceName(b.name, v.filePath) in names ==>
               PointsNowhere(names[NiceName(b.name, v.filePath)], v.filePath, v.isUnversioned, t, objects))
  {
    StoredTree(t, u, v, id);
    hide ValidTree, Stores, Latest, SameElsewhere, PointsNowhere, NameAgrees;
    var n := NiceName(b.name, v.filePath);
    if n in names {
      assert NameAgrees(names[n], v.filePath, b, t, objects);
      NamedCid(names[n], v.filePath, b, t, objects);
      StoredNamed(b, t, u, v, id, names[n], objects);
    }
    forall name: string | NiceName(b.name, name) in names && name != v.filePath
      ensures NameAgrees(names[NiceName(b.name, name)], name, b, u, objects)
    {
      var a := names[NiceName(b.name, name)];
      assert NameAgrees(a, name, b, t, objects);
      NamedCid(a, name, b, t, objects);
      NameElsewhere(a, name, b, t, u, v.filePath, objects, objects);
    }
  }

  lemma NamedCid(a: Address, name: string, b: Bucket, t: Tree, objects: ObjectCache)
    requires NameAgrees(a, name, b, t, objects)
    ensures a == Address(b.cid, a.oid)
  {
  }

  lemma UnlockedObjects(b: Bucket, t: Tree, u: Tree, v: NewVersion, id: nat, objects: ObjectCache)
    requires ValidTree(t) && Stores(t, u, v, id) && ObjectsAgree(b, t, objects) && Address(b.cid, v.oid) !in objects
    ensures ObjectsAgree(b, u, objects)
  {
    StoredTree(t, u, v, id);
    hide ValidTree, Stores, SameElsewhere;
  }
}
