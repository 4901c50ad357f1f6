/** The gateway: reading and changing objects of buckets through their trees, with caches in front. */
module Gateways {
  import opened Caches
  import opened Coherence
  import opened Forests
  import opened Sorting
  import opened Strings
  import opened VersionStores
  import opened Wrappers

  datatype Versioning = Unversioned | Enabled | Suspended

  /** Stands for the null version where a version id is expected. */
  const NULL_VERSION := "null"

  /** What a caller learns of a deletion. */
  datatype Deleted = Deleted(failed: bool, deleteMarkVersion: string)

  class Gateway {
    const cache: Cache
    const buckets: map<string, string>
    var trees: map<string, Tree>
    var nextId: nat
    var clock: nat

    ghost predicate ValidTrees()
      reads this
    {
      && trees.Keys == buckets.Keys
      && (forall c :: c in trees ==> ValidTree(trees[c]))
      && (forall c, id :: c in trees && id in trees[c] ==> id < nextId && trees[c][id].timestamp < clock)
    }

    ghost function Now(): View
      reads this, cache
    {
      View(trees, cache.lists, cache.names, cache.objects)
    }

    /** All caches agree with the trees of all buckets, and users may read what they were answered with. */
    ghost predicate Valid()
      reads this, cache
    {
      ValidTrees() && Coherent(buckets, Now()) && cache.Backed()
    }

    constructor (buckets: map<string, string>)
      requires ValidBuckets(buckets)
      ensures Valid() && fresh(cache) && this.buckets == buckets && forall c :: c in trees ==> trees[c] == map[]
    {
      this.buckets := buckets;
      trees := map c | c in buckets :: map[];
      nextId, clock := 0, 0;
      cache := new Cache();
    }

    // ---- the trees ----

    /** Stores a version under a new node, or under that of the null version it replaces. */
    method AddVersion(cid: string, v: NewVersion) returns (id: nat)
      requires ValidTrees() && cid in trees && !HasOid(trees[cid], v.oid)
      modifies this`trees, this`nextId, this`clock
      ensures ValidTrees() && cid in trees && trees == old(trees)[cid := trees[cid]]
      ensures Stores(old(trees)[cid], trees[cid], v, id)
    {
      hide ValidTree, Stores;
      var t := trees[cid];
      var parent;
      id, parent := NodeFor(t, v);
      var u: Tree := t[id := NodeVersion(id, parent, v.oid, clock, v.filePath, v.isUnversioned, v.isDeleteMarker)];
      Kept(t, u, v, id, parent, clock);
      nextId, clock := nextId + 1, clock + 1;
      trees := trees[cid := u];
    }

    /** The node of the null version that a null version replaces, or a new one. */
    method NodeFor(t: Tree, v: NewVersion) returns (id: nat, parent: nat)
      requires forall x :: x in t ==> x < nextId
      ensures id <= nextId
      ensures if id in t then v.isUnversioned && IsNull(t, id, v.filePath) && parent == t[id].parenID
              else v.isUnversioned ==> forall x :: !IsNull(t, x, v.filePath)
    {
      id, parent := nextId, 0;
      if v.isUnversioned {
        var nulls := set x | x in t && t[x].isUnversioned && t[x].filePath == v.filePath;
        if nulls != {} {
          id :| id in nulls;
          parent := t[id].parenID;
        } else {
          forall x ensures !IsNull(t, x, v.filePath) { assert x !in nulls; }
        }
      }
    }

    static lemma Kept(t: Tree, u: Tree, v: NewVersion, id: nat, parent: nat, time: nat)
      requires ValidTree(t) && !HasOid(t, v.oid) && (forall x :: x in t ==> t[x].timestamp < time)
      requires u == t[id := NodeVersion(id, parent, v.oid, time, v.filePath, v.isUnversioned, v.isDeleteMarker)]
      requires if id in t then v.isUnversioned && IsNull(t, id, v.filePath) && parent == t[id].parenID
               else v.isUnversioned ==> forall x :: !IsNull(t, x, v.filePath)
      ensures Stores(t, u, v, id) && ValidTree(u)
    {
      assert Added(t, u, v, id);
      assert Stores(t, u, v, id);
      hide Added, Stores;
      StoredTree(t, u, v, id);
    }

    method RemoveVersion(cid: string, id: nat)
      requires ValidTrees() && cid in trees && id in trees[cid]
      modifies this`trees
      ensures ValidTrees() && trees == old(trees)[cid := old(trees)[cid] - {id}]
    {
      RemovedTree(trees[cid], id);
      trees := trees[cid := trees[cid] - {id}];
    }

    method GetLatestVersion(cid: string, name: string) returns (r: Option<NodeVersion>)
      requires ValidTrees() && cid in trees
      ensures r.Some? ==> Latest(trees[cid], r.value.id, name) && r.value == trees[cid][r.value.id]
      ensures r.None? ==> forall id :: id in trees[cid] ==> trees[cid][id].filePath != name
    {
      var t := trees[cid];
      var left := set id | id in t && t[id].filePath == name;
      r := None;
      while left != {}
        invariant left <= t.Keys && forall id :: id in left ==> t[id].filePath == name
        invariant r.Some? ==> r.value.id in t && r.value == t[r.value.id] && r.value.filePath == name
        invariant forall id :: id in t && t[id].filePath == name && id !in left ==>
                    r.Some? && t[id].timestamp <= r.value.timestamp
        decreases left
      {
        var id :| id in left;
        left := left - {id};
        if r.None? || r.value.timestamp < t[id].timestamp {
          r := Some(t[id]);
        }
      }
    }

    method GetUnversioned(cid: string, name: string) returns (r: Option<NodeVersion>)
      requires ValidTrees() && cid in trees
      ensures r.Some? ==> IsNull(trees[cid], r.value.id, name) && r.value == trees[cid][r.value.id]
      ensures r.None? ==> forall id :: !IsNull(trees[cid], id, name)
    {
      var t := trees[cid];
      var nulls := set id | id in t && t[id].isUnversioned && t[id].filePath == name;
      if nulls == {} {
        forall id ensures !IsNull(t, id, name) { assert id !in nulls; }
        return None;
      }
      var id :| id in nulls;
      return Some(t[id]);
    }

    method GetVersions(cid: string, name: string) returns (versions: seq<NodeVersion>)
      requires ValidTrees() && cid in trees
      ensures forall v :: v in versions <==> v.id in trees[cid] && v == trees[cid][v.id] && v.filePath == name
    {
      var t := trees[cid];
      versions := Collect(t, set id | id in t && t[id].filePath == name);
    }

    /** The versions under some nodes. */
    static method Collect(t: Tree, ids: set<nat>) returns (versions: seq<NodeVersion>)
      requires ids <= t.Keys && forall id :: id in t ==> t[id].id == id
      ensures forall v :: v in versions <==> v.id in ids && v == t[v.id]
      ensures forall i, j :: 0 <= i < j < |versions| ==> versions[i] != versions[j]
    {
      versions := [];
      var left := ids;
      while left != {}
        invariant left <= ids && forall v :: v in versions <==> v.id in ids && v.id !in left && v == t[v.id]
        invariant forall i, j :: 0 <= i < j < |versions| ==> versions[i] != versions[j]
        decreases left
      {
        var id :| id in left;
        left := left - {id};
        assert t[id] !in versions;
        versions := versions + [t[id]];
      }
    }

    static predicate NewestOfPath(t: Tree, id: nat)
      requires id in t
    {
      forall x :: x in t.Keys ==> t[x].filePath == t[id].filePath ==> t[x].timestamp <= t[id].timestamp
    }

    /** The versions of a prefix; with `latestOnly`, only the latest of each object that is no delete marker. */
    method GetVersionsByPrefix(cid: string, prefix: string, latestOnly: bool) returns (list: seq<NodeVersion>)
      requires ValidTrees() && cid in trees
      ensures ListOf(list, trees[cid], prefix, latestOnly)
    {
      var t := trees[cid];
      var all := set id | id in t && HasPrefix(t[id].filePath, prefix);
      var ids := if latestOnly then set id | id in all && !t[id].isDeleteMarker && NewestOfPath(t, id) else all;
      list := Collect(t, ids);
      forall v ensures v in list <==> Listed(t, v, prefix, latestOnly) {
        if v.id in t && v == t[v.id] {
          assert IsLatest(t, v) <==> NewestOfPath(t, v.id);
        }
      }
    }

    // ---- objects ----

    /** An object id that no tree and no cache has met. */
    ghost predicate NewOid(cid: string, oid: string)
      requires cid in trees
      reads this, cache
    {
      Unseen(Address(cid, oid), trees[cid], cache.names, cache.objects)
    }

    /** Expiry and eviction at any time. */
    method Evict(someLists: set<ObjectsListKey>, someObjects: set<Address>, someNames: set<string>,
                 someAccess: set<string>)
      requires Valid()
      modifies cache
      ensures Valid() && cache.granted == old(cache.granted)
    {
      hide Coherent;
      EvictKeeps(buckets, Now(), someLists, someNames, someObjects);
      cache.Evict(someLists, someObjects, someNames, someAccess);
    }

    /**
     Stores an object: its data, then its version, then its lock. `storageOK`, `treeOK` and `lockOK` say whether
     these calls succeed.
     */
    method PutObject(owner: string, b: Bucket, name: string, versioning: Versioning, oid: string, size: nat,
                     etag: string, storageOK: bool, treeOK: bool, lockOK: bool) returns (r: Option<ObjectInfo>)
      requires Valid() && Has(buckets, b) && b.cid in trees && NewOid(b.cid, oid)
      modifies this, cache
      ensures lockOK || !storageOK || !treeOK ==> Valid()
      ensures storageOK && treeOK && !lockOK ==>
                (Valid() <==> old(NothingCached(b, name, versioning != Enabled, Now())))
      ensures storageOK && treeOK && !lockOK ==> unchanged(cache) && b.cid in trees
      ensures storageOK && treeOK && !lockOK ==>
                && (forall user, key :: AnswersList(user, b, key) ==>
                      (ListOf(cache.lists[key], trees[b.cid], key.prefix, key.latestOnly) <==>
                        !HasPrefix(name, key.prefix)))
                && (forall user, n :: AnswersLast(user, b, n) ==>
                      (LastIs(b, n, cache.objects[cache.names[NiceName(b.name, n)]]) <==> n != name))
      ensures r.Some? <==> storageOK && treeOK && lockOK
      ensures b.cid in trees && (r.Some? ==> LastIs(b, name, r.value))
      ensures trees == old(trees)[b.cid := trees[b.cid]]
      ensures cache.granted ==
              old(cache.granted) + if r.Some? then {Grant(owner, AnObject(Address(b.cid, oid)))} else {}
      ensures if storageOK && treeOK then
                StoredSome(old(trees)[b.cid], trees[b.cid],
                           NewVersion(name, oid, size, etag, versioning != Enabled, false))
              else trees == old(trees)
    {
      hide Coherent, ValidTree, Stores, StoredSome;
      if !storageOK || !treeOK {
        assert trees == trees[b.cid := trees[b.cid]];
        return None;
      }
      var v := NewVersion(name, oid, size, etag, versioning != Enabled, false);
      var id := AddVersion(b.cid, v);
      StoredBy(old(trees)[b.cid], trees[b.cid], v, id);
      if !lockOK {
        UnlockedAgrees(buckets, b, old(Now()), Now(), v, id);
        UnlockedAnswers(b, old(Now()), v, id);
        return None;
      }
      cache.CleanListCacheEntriesContainingObject(name, b.cid);
      var info := ObjectInfo(b.cid, b.name, name, oid, id, v.isUnversioned);
      cache.PutObjectWithName(owner, info);
      PutKeeps(buckets, b, old(Now()), Now(), v, id, info);
      StoredIsLast(b, old(trees)[b.cid], v, id);
      return Some(info);
    }

    /** A user is answered a list of a bucket from the cache. */
    ghost predicate AnswersList(user: string, b: Bucket, key: ObjectsListKey)
      reads cache
    {
      key.cid == b.cid && user + KeyText(key) in cache.access && key in cache.lists && cache.lists[key] != []
    }

    /** A user is answered an object by its name from the cache. */
    ghost predicate AnswersLast(user: string, b: Bucket, name: string)
      reads cache
    {
      && NiceName(b.name, name) in cache.names && cache.names[NiceName(b.name, name)] in cache.objects
      && user + AddressText(cache.names[NiceName(b.name, name)]) in cache.access
    }

    /**
     Of the cached answers, exactly those about the object are wrong once a version was stored without telling
     them.
     */
    lemma UnlockedAnswers(b: Bucket, w: View, v: NewVersion, id: nat)
      requires Coherent(buckets, w) && Has(buckets, b) && b.cid in w.trees && b.cid in trees && !v.isDeleteMarker
      requires Stores(w.trees[b.cid], trees[b.cid], v, id)
      requires w.lists == cache.lists && w.names == cache.names && w.objects == cache.objects
      ensures forall user, key :: AnswersList(user, b, key) ==>
                (ListOf(cache.lists[key], trees[b.cid], key.prefix, key.latestOnly) <==>
                  !HasPrefix(v.filePath, key.prefix))
      ensures forall user, n :: AnswersLast(user, b, n) ==>
                (LastIs(b, n, cache.objects[cache.names[NiceName(b.name, n)]]) <==> n != v.filePath)
    {
      AgreesFor(buckets, b, w);
      hide Coherent, ValidTree, ListOf, Stores, Latest;
      var t, u := w.trees[b.cid], trees[b.cid];
      forall user, key | AnswersList(user, b, key)
        ensures ListOf(cache.lists[key], u, key.prefix, key.latestOnly) <==> !HasPrefix(v.filePath, key.prefix)
      {
        StoredListed(t, u, v, id, cache.lists[key], key.prefix, key.latestOnly);
      }
      forall user, n | AnswersLast(user, b, n)
        ensures LastIs(b, n, cache.objects[cache.names[NiceName(b.name, n)]]) <==> n != v.filePath
      {
        StoredLast(b, t, u, v, id, n, cache.names, cache.objects);
      }
    }

    lemma StoredIsLast(b: Bucket, t: Tree, v: NewVersion, id: nat)
      requires b.cid in trees && ValidTree(t) && Stores(t, trees[b.cid], v, id) && !v.isDeleteMarker
      ensures LastIs(b, v.filePath, ObjectInfo(b.cid, b.name, v.filePath, v.oid, id, v.isUnversioned))
    {
      StoredTree(t, trees[b.cid], v, id);
      StoredIs(t, trees[b.cid], v, id);
      hide Stores, ValidTree, Latest;
      assert InfoOf(b, trees[b.cid][id]) == ObjectInfo(b.cid, b.name, v.filePath, v.oid, id, v.isUnversioned);
    }

    static lemma StoredBy(t: Tree, u: Tree, v: NewVersion, id: nat)
      requires Stores(t, u, v, id)
      ensures StoredSome(t, u, v)
    {
    }

    /** The version that a caller means: the null version, the latest one, or the one of an object id. */
    method FindVersion(b: Bucket, name: string, versionID: string) returns (r: Option<NodeVersion>)
      requires ValidTrees() && b.cid in trees
      ensures r.Some? ==> Means(trees[b.cid], name, versionID, r.value.id) && r.value == trees[b.cid][r.value.id]
      ensures r.None? ==> forall id :: !Means(trees[b.cid], name, versionID, id)
    {
      if versionID == NULL_VERSION {
        r := GetUnversioned(b.cid, name);
      } else if versionID == "" {
        r := GetLatestVersion(b.cid, name);
      } else {
        var versions := GetVersions(b.cid, name);
        for k := 0 to |versions|
          invariant forall j :: 0 <= j < k ==> versions[j].oid != versionID
        {
          if versions[k].oid == versionID {
            return Some(versions[k]);
          }
        }
        ghost var t := trees[b.cid];
        forall id | id in t && t[id].filePath == name ensures t[id].oid != versionID { assert t[id] in versions; }
        r := None;
      }
    }

    /** The same; a delete marker is found only if that is no error to the caller. */
    method GetNodeVersion(b: Bucket, name: string, versionID: string, noErrorOnDeleteMarker: bool)
      returns (r: Option<NodeVersion>)
      requires ValidTrees() && b.cid in trees
      ensures r.Some? ==> Means(trees[b.cid], name, versionID, r.value.id) && r.value == trees[b.cid][r.value.id]
      ensures r.Some? ==> noErrorOnDeleteMarker || !r.value.isDeleteMarker
      ensures r.None? ==> forall id :: Means(trees[b.cid], name, versionID, id) ==>
                                         !noErrorOnDeleteMarker && trees[b.cid][id].isDeleteMarker
    {
      r := FindVersion(b, name, versionID);
      if r.Some? && r.value.isDeleteMarker && !noErrorOnDeleteMarker {
        OneMeant(trees[b.cid], name, versionID, r.value.id);
        r := None;
      }
    }

    /** Only one version can be meant. */
    static lemma OneMeant(t: Tree, name: string, versionID: string, id: nat)
      requires ValidTree(t) && Means(t, name, versionID, id)
      ensures forall x :: Means(t, name, versionID, x) ==> x == id
    {
      if versionID != NULL_VERSION && versionID == "" {
        OneLatest(t, id, name);
      }
    }

    static ghost predicate Means(t: Tree, name: string, versionID: string, id: nat)
    {
      if versionID == NULL_VERSION then IsNull(t, id, name)
      else if versionID == "" then Latest(t, id, name)
      else id in t && t[id].filePath == name && t[id].oid == versionID
    }

    /** Removes the data of a version that is no delete marker; its cached object goes even if that fails. */
    method RemoveOldVersion(b: Bucket, version: NodeVersion, versionID: string, storageOK: bool) returns (r: Deleted)
      requires Valid()
      modifies cache
      ensures Valid() && cache.lists == old(cache.lists) && cache.names == old(cache.names)
      ensures cache.granted == old(cache.granted)
      ensures cache.objects == if version.isDeleteMarker then old(cache.objects)
                               else old(cache.objects) - {Address(b.cid, version.oid)}
      ensures r == if version.isDeleteMarker then Deleted(false, versionID) else Deleted(!storageOK, "")
    {
      if version.isDeleteMarker {
        return Deleted(false, versionID);
      }
      hide Coherent;
      EvictKeeps(buckets, Now(), {}, {}, {Address(b.cid, version.oid)});
      NothingLess(cache.lists, cache.names);
      cache.DeleteObject(Address(b.cid, version.oid));
      return Deleted(!storageOK, "");
    }

    static lemma NothingLess(lists: ListCache, names: NameCache)
      ensures lists - {} == lists && names - {} == names
    {
    }

    /**
     Deletes a version, or hides an object behind a delete marker. `storageOK` and `treeOK` say whether the calls
     to the storage and the change of the tree succeed.
     */
    method DeleteObject(b: Bucket, name: string, versionID: string, versioning: Versioning, markerOid: string,
                        storageOK: bool, treeOK: bool) returns (r: Deleted)
      requires Valid() && Has(buckets, b) && b.cid in trees && NewOid(b.cid, markerOid)
      modifies this, cache
      ensures Valid() && b.cid in trees && trees == old(trees)[b.cid := trees[b.cid]]
      ensures cache.granted == old(cache.granted)
      ensures if versionID != "" || versioning == Unversioned then
                VersionDeleted(old(trees)[b.cid], trees[b.cid], name, versionID, storageOK, treeOK, r)
              else Marked(old(trees)[b.cid], trees[b.cid], name, versioning == Suspended, markerOid, storageOK, treeOK,
                          r)
      ensures versionID == "" && storageOK && treeOK ==>
                !r.failed && (Live(trees[b.cid], name) <==> old(StaysLive(trees[b.cid], name, versioning)))
    {
      hide Coherent, ValidTree, Marked, VersionDeleted;
      if versionID != "" || versioning == Unversioned {
        r := DeleteVersion(b, name, versionID, storageOK, treeOK);
        if versionID == "" && storageOK && treeOK {
          DeletedLives(old(trees)[b.cid], trees[b.cid], name, r);
        }
      } else {
        r := MarkDeleted(b, name, versioning == Suspended, markerOid, storageOK, treeOK);
        if storageOK && treeOK {
          MarkedLives(old(trees)[b.cid], trees[b.cid], name, versioning, markerOid, r);
        }
      }
    }

    /** An object that is there: its latest version is no delete marker. */
    static ghost predicate Live(t: Tree, name: string)
    {
      exists id :: Latest(t, id, name) && !t[id].isDeleteMarker
    }

    /** The version of an object that is the latest one but for one other. */
    static ghost predicate SecondLatest(t: Tree, id: nat, name: string)
    {
      && id in t && t[id].filePath == name && !Latest(t, id, name)
      && forall x :: x in t && t[x].filePath == name && !Latest(t, x, name) ==> t[x].timestamp <= t[id].timestamp
    }

    /**
     An object that is still there after it was deleted: while versioning is suspended one without a null
     version, and without versioning one with an older version that is no delete marker.
     */
    static ghost predicate StaysLive(t: Tree, name: string, versioning: Versioning)
    {
      match versioning
      case Enabled => false
      case Suspended => Live(t, name) && NoneMeant(t, name, NULL_VERSION)
      case Unversioned => exists id :: SecondLatest(t, id, name) && !t[id].isDeleteMarker
    }

    /** Deleting the latest version leaves an object exactly if the version before it is no delete marker. */
    static lemma DeletedLives(t: Tree, u: Tree, name: string, r: Deleted)
      requires ValidTree(t) && VersionDeleted(t, u, name, "", true, true, r)
      ensures !r.failed && (Live(u, name) <==> StaysLive(t, name, Unversioned))
    {
      if NoneMeant(t, name, "") {
        NoneLatest(t, name);
      } else {
        var id :| Means(t, name, "", id) && RemovedIf(t, u, id, "", true, true, r);
        OneLatest(t, id, name);
        forall x ensures Latest(u, x, name) <==> SecondLatest(t, x, name) {
          RemovedLatest(t, id, name, x);
        }
      }
    }

    static lemma NoneLatest(t: Tree, name: string)
      requires NoneMeant(t, name, "")
      ensures !Live(t, name) && forall id :: !SecondLatest(t, id, name)
    {
      forall id ensures !Latest(t, id, name) { assert !Means(t, name, "", id); }
      forall id ensures SecondLatest(t, id, name) ==> exists l :: Latest(t, l, name) {
        if SecondLatest(t, id, name) {
          SomeLatest(t, id);
        }
      }
    }

    static lemma SomeLatest(t: Tree, id: nat)
      requires id in t
      ensures exists l :: Latest(t, l, t[id].filePath)
    {
      var ids := set x | x in t && t[x].filePath == t[id].filePath;
      assert id in ids;
      var l := Newest(t, ids);
      assert Latest(t, l, t[id].filePath);
    }

    static lemma {:induction false} Newest(t: Tree, ids: set<nat>) returns (l: nat)
      requires ids != {} && ids <= t.Keys
      ensures l in ids && forall x :: x in ids ==> t[x].timestamp <= t[l].timestamp
    {
      l :| l in ids;
      if ids != {l} {
        var o := Newest(t, ids - {l});
        if t[l].timestamp <= t[o].timestamp {
          l := o;
        }
      }
    }

    static lemma RemovedLatest(t: Tree, id: nat, name: string, x: nat)
      requires Latest(t, id, name) && forall y :: Latest(t, y, name) ==> y == id
      ensures Latest(t - {id}, x, name) <==> SecondLatest(t, x, name)
    {
      forall y | y in t ensures Latest(t, y, name) <==> y == id {}
      var u := t - {id};
      forall y | y in t && y != id ensures y in u && u[y] == t[y] {}
      assert x in u && IsLatest(u, u[x]) ==> forall y :: y in t && t[y].filePath == name && y != id ==> y in u;
    }

    /** A delete marker hides an object; without versions to replace while versioning is suspended, nothing does. */
    static lemma MarkedLives(t: Tree, u: Tree, name: string, versioning: Versioning, markerOid: string, r: Deleted)
      requires ValidTree(t) && versioning != Unversioned
      requires Marked(t, u, name, versioning == Suspended, markerOid, true, true, r)
      ensures !r.failed && (Live(u, name) <==> StaysLive(t, name, versioning))
    {
      if versioning == Enabled || !NoneMeant(t, name, NULL_VERSION) {
        MarkerHides(t, u, NewVersion(name, markerOid, 0, "", versioning == Suspended, true));
      }
    }

    static lemma MarkerHides(t: Tree, u: Tree, v: NewVersion)
      requires ValidTree(t) && StoredSome(t, u, v) && v.isDeleteMarker
      ensures !Live(u, v.filePath)
    {
      var id :| Stores(t, u, v, id);
      StoredTree(t, u, v, id);
      OneLatest(u, id, v.filePath);
    }

    /** What is there after a deletion is what a caller gets. */
    lemma LiveIsLast(b: Bucket, name: string)
      requires b.cid in trees
      ensures Live(trees[b.cid], name) <==> exists info :: LastIs(b, name, info)
    {
      if Live(trees[b.cid], name) {
        var id :| Latest(trees[b.cid], id, name) && !trees[b.cid][id].isDeleteMarker;
        assert LastIs(b, name, InfoOf(b, trees[b.cid][id]));
      }
    }

    /** In a bucket that never had versions an object has a null version at most, and is gone when deleted. */
    static lemma NullVersionsGo(t: Tree, name: string)
      requires ValidTree(t) && forall id :: id in t && t[id].filePath == name ==> t[id].isUnversioned
      ensures !StaysLive(t, name, Unversioned) && !StaysLive(t, name, Suspended)
    {
      forall id | id in t && t[id].filePath == name ensures Latest(t, id, name) && Means(t, name, NULL_VERSION, id) {
        assert IsNull(t, id, name);
        assert forall x :: x in t && t[x].filePath == name ==> IsNull(t, x, name);
      }
    }

    /**
     A version that was stored under versioning, and deleted while it is suspended: reported as deleted, still
     there.
     */
    static lemma DeletedStaysExample(u: Tree, markerOid: string, r: Deleted)
      requires Marked(map[0 := NodeVersion(0, 0, "oid", 0, "doc", false, false)], u, "doc", true, markerOid, true, true,
                      r)
      ensures !r.failed && Live(u, "doc")
    {
      var t: Tree := map[0 := NodeVersion(0, 0, "oid", 0, "doc", false, false)];
      assert ValidTree(t);
      assert Latest(t, 0, "doc");
      assert NoneMeant(t, "doc", NULL_VERSION);
    }

    /**
     The version that was meant is gone with its data; if there is none, or its data could not be removed, or
     the tree not be changed, nothing is.
     */
    static ghost predicate VersionDeleted(t: Tree, u: Tree, name: string, versionID: string, storageOK: bool,
                                          treeOK: bool, r: Deleted)
    {
      if NoneMeant(t, name, versionID) then u == t && r == Deleted(false, "")
      else exists id :: Means(t, name, versionID, id) && RemovedIf(t, u, id, versionID, storageOK, treeOK, r)
    }

    static ghost predicate NoneMeant(t: Tree, name: string, versionID: string)
    {
      forall id :: !Means(t, name, versionID, id)
    }

    static ghost predicate RemovedIf(t: Tree, u: Tree, id: nat, versionID: string, storageOK: bool, treeOK: bool,
                                     r: Deleted)
      requires id in t
    {
      var done := (t[id].isDeleteMarker || storageOK) && treeOK;
      && u == (if done then t - {id} else t)
      && r == Deleted(!done, if t[id].isDeleteMarker then versionID else "")
    }

    /**
     A delete marker is the latest version. While versioning is suspended it takes the place of the null version,
     whose data goes; without a null version nothing happens.
     */
    static ghost predicate Marked(t: Tree, u: Tree, name: string, suspended: bool, markerOid: string, storageOK: bool,
                                  treeOK: bool, r: Deleted)
    {
      if !suspended then MarkedIf(t, u, name, false, markerOid, treeOK, r)
      else if NoneMeant(t, name, NULL_VERSION) then u == t && r == Deleted(false, "")
      else exists id :: IsNull(t, id, name) &&
             if t[id].isDeleteMarker || storageOK then MarkedIf(t, u, name, true, markerOid, treeOK, r)
             else u == t && r.failed
    }

    static ghost predicate MarkedIf(t: Tree, u: Tree, name: string, unversioned: bool, markerOid: string, treeOK: bool,
                                    r: Deleted)
    {
      && (if treeOK then StoredSome(t, u, NewVersion(name, markerOid, 0, "", unversioned, true)) else u == t)
      && r == Deleted(!treeOK, markerOid)
    }

    method DeleteVersion(b: Bucket, name: string, versionID: string, storageOK: bool, treeOK: bool) returns (r: Deleted)
      requires Valid() && Has(buckets, b) && b.cid in trees
      modifies this, cache
      ensures Valid() && b.cid in trees && trees == old(trees)[b.cid := trees[b.cid]]
      ensures cache.granted == old(cache.granted)
      ensures VersionDeleted(old(trees)[b.cid], trees[b.cid], name, versionID, storageOK, treeOK, r)
    {
      hide Coherent, ValidTree, Means, VersionDeleted, Cleaned, Cache.Backed;
      ghost var t := trees[b.cid];
      assert trees == trees[b.cid := t];
      var version := GetNodeVersion(b, name, versionID, true);
      if version.None? {
        NothingDeleted(t, name, versionID, storageOK, treeOK);
        return Deleted(false, "");
      }
      var id := version.value.id;
      MeantIsThere(t, name, versionID, id);
      r := RemoveOldVersion(b, version.value, versionID, storageOK);
      if r.failed {
        OneDeleted(t, t, name, versionID, id, storageOK, treeOK, r);
        return;
      }
      DropVersion(b, id, treeOK);
      r := r.(failed := !treeOK);
      OneDeleted(t, trees[b.cid], name, versionID, id, storageOK, treeOK, r);
    }

    /** Takes a version whose object is not cached from its tree; the lists with its object go even if that fails. */
    method DropVersion(b: Bucket, id: nat, treeOK: bool)
      requires Valid() && Has(buckets, b) && b.cid in trees && id in trees[b.cid]
      requires !trees[b.cid][id].isDeleteMarker ==> Address(b.cid, trees[b.cid][id].oid) !in cache.objects
      modifies this, cache
      ensures Valid() && b.cid in trees && cache.granted == old(cache.granted)
      ensures trees == old(trees)[b.cid := if treeOK then old(trees)[b.cid] - {id} else old(trees)[b.cid]]
    {
      hide Coherent, ValidTree, Cleaned, Cache.Backed;
      ghost var before := Now();
      var name := trees[b.cid][id].filePath;
      if treeOK {
        RemoveVersion(b.cid, id);
      }
      cache.CleanListCacheEntriesContainingObject(name, b.cid);
      if treeOK {
        RemoveKeeps(buckets, b, before, Now(), id);
      } else {
        assert trees == trees[b.cid := trees[b.cid]];
        CleanKeeps(buckets, before, name, b.cid);
      }
    }

    static lemma NothingDeleted(t: Tree, name: string, versionID: string, storageOK: bool, treeOK: bool)
      requires forall id :: !Means(t, name, versionID, id)
      ensures VersionDeleted(t, t, name, versionID, storageOK, treeOK, Deleted(false, ""))
    {
      hide Means;
    }

    static lemma OneDeleted(t: Tree, u: Tree, name: string, versionID: string, id: nat, storageOK: bool, treeOK: bool,
                            r: Deleted)
      requires id in t && Means(t, name, versionID, id) && RemovedIf(t, u, id, versionID, storageOK, treeOK, r)
      ensures VersionDeleted(t, u, name, versionID, storageOK, treeOK, r)
    {
      hide RemovedIf;
    }

    static lemma MeantIsThere(t: Tree, name: string, versionID: string, id: nat)
      requires Means(t, name, versionID, id)
      ensures id in t && t[id].filePath == name
    {
    }

    static lemma CleanKeeps(buckets: map<string, string>, w: View, name: string, cid: string)
      requires Coherent(buckets, w)
      ensures Coherent(buckets, w.(lists := Cleaned(w.lists, name, cid)))
    {
      var gone := set k | k in w.lists && Contains(k, name, cid);
      hide Coherent;
      EvictKeeps(buckets, w, gone, {}, {});
      assert w.lists - gone == Cleaned(w.lists, name, cid) && w.names - {} == w.names && w.objects - {} == w.objects;
    }

    method MarkDeleted(b: Bucket, name: string, suspended: bool, markerOid: string, storageOK: bool, treeOK: bool)
      returns (r: Deleted)
      requires Valid() && Has(buckets, b) && b.cid in trees && NewOid(b.cid, markerOid)
      modifies this, cache
      ensures Valid() && b.cid in trees && trees == old(trees)[b.cid := trees[b.cid]]
      ensures cache.granted == old(cache.granted)
      ensures Marked(old(trees)[b.cid], trees[b.cid], name, suspended, markerOid, storageOK, treeOK, r)
    {
      hide Coherent, ValidTree, Means, IsNull, Stores, StoredSome, Cache.Backed;
      assert trees == trees[b.cid := trees[b.cid]];
      if suspended {
        var version := GetNodeVersion(b, name, NULL_VERSION, true);
        if version.None? {
          return Deleted(false, "");
        }
        NullMeant(trees[b.cid], name, version.value.id);
        r := RemoveOldVersion(b, version.value, NULL_VERSION, storageOK);
        if r.failed {
          return;
        }
      }
      if !treeOK {
        return Deleted(true, markerOid);
      }
      StoreMarker(b, NewVersion(name, markerOid, 0, "", suspended, true));
      return Deleted(false, markerOid);
    }

    method StoreMarker(b: Bucket, v: NewVersion)
      requires Valid() && Has(buckets, b) && b.cid in trees && NewOid(b.cid, v.oid)
      modifies this, cache
      ensures Valid() && b.cid in trees && trees == old(trees)[b.cid := trees[b.cid]]
      ensures cache.granted == old(cache.granted) && StoredSome(old(trees)[b.cid], trees[b.cid], v)
    {
      hide Coherent, ValidTree, Stores, StoredSome, Cache.Backed;
      ghost var before := Now();
      var id := AddVersion(b.cid, v);
      StoredBy(before.trees[b.cid], trees[b.cid], v, id);
      cache.DeleteObjectName(b.cid, b.name, v.filePath);
      MarkKeeps(buckets, b, before, Now(), v, id);
    }

    static lemma NullMeant(t: Tree, name: string, id: nat)
      requires Means(t, name, NULL_VERSION, id)
      ensures IsNull(t, id, name) && id in t && !NoneMeant(t, name, NULL_VERSION)
    {
    }

    // ---- reading ----

    /**
     Without the storage a user is answered only with what that user was answered with before, and only an answer
     of the storage counts as one.
     */
    static ghost predicate Answered(before: set<Grant>, owner: string, r: Option<ObjectInfo>, headOK: bool,
                                    cid: string, after: set<Grant>)
    {
      && (r.Some? ==> r.value.cid == cid)
      && (r.Some? && !headOK && FixedLengths(before, owner, cid) ==>
            Entitled(before, owner, AnObject(AddressOf(r.value))))
      && (|| after == before
          || (headOK && r.Some? && after == before + {Grant(owner, AnObject(AddressOf(r.value)))}))
    }

    lemma HitIsGranted(owner: string, a: Address)
      requires Valid() && a in cache.objects && owner + AddressText(a) in cache.access
      ensures AddressOf(cache.objects[a]) == a
      ensures FixedLengths(cache.granted, owner, a.cid) ==> Entitled(cache.granted, owner, AnObject(a))
    {
      if FixedLengths(cache.granted, owner, a.cid) { cache.AccessTells(owner, AnObject(a)); }
    }

    /**
     The object that a caller gets if there is one: what describes the latest version, unless that is a delete
     marker.
     */
    ghost predicate LastIs(b: Bucket, name: string, info: ObjectInfo)
      requires b.cid in trees
      reads this
    {
      exists id ::
        Latest(trees[b.cid], id, name) && !trees[b.cid][id].isDeleteMarker && info == InfoOf(b, trees[b.cid][id])
    }

    /** The latest version of an object; with a cached one the storage is not asked. */
    method HeadLastVersionIfNotDeleted(owner: string, b: Bucket, name: string, headOK: bool)
      returns (r: Option<ObjectInfo>)
      requires Valid() && Has(buckets, b) && b.cid in trees
      modifies cache
      ensures Valid() && Answered(old(cache.granted), owner, r, headOK, b.cid, cache.granted)
      ensures r.Some? ==> LastIs(b, name, r.value)
      ensures r.None? && headOK ==> forall info :: !LastIs(b, name, info)
      ensures if r.None? then !old(cache.HitsName(owner, b.name, name)) else cache.HitsName(owner, b.name, name)
    {
      hide Coherent, ValidTree, Latest, LastIs;
      var hit := cache.GetLastObject(owner, b.name, name);
      if hit.Some? {
        HitDescribes(b, name);
        HitIsGranted(owner, cache.names[NiceName(b.name, name)]);
        LastInBucket(b, name, hit.value);
        return hit;
      }
      var node := GetLatestVersion(b.cid, name);
      LastOrNone(b, name, node);
      if node.None? || node.value.isDeleteMarker || !headOK {
        return None;
      }
      var info := InfoOf(b, node.value);
      ObjectKeeps(buckets, b, Now(), node.value.id);
      ghost var w := Now().(objects := Now().objects[AddressOf(info) := info]);
      NameKeeps(buckets, b, w, node.value.id, name);
      cache.PutObjectWithName(owner, info);
      return Some(info);
    }

    /** The latest version of an object says what a caller is to get. */
    lemma LastOrNone(b: Bucket, name: string, node: Option<NodeVersion>)
      requires ValidTrees() && b.cid in trees
      requires node.Some? ==> Latest(trees[b.cid], node.value.id, name) && node.value == trees[b.cid][node.value.id]
      requires node.None? ==> forall id :: id in trees[b.cid] ==> trees[b.cid][id].filePath != name
      ensures node.Some? ==> node.value.id in trees[b.cid] && node.value.filePath == name
      ensures if node.Some? && !node.value.isDeleteMarker then LastIs(b, name, InfoOf(b, node.value))
              else forall info :: !LastIs(b, name, info)
    {
      NoLatest(trees[b.cid], name);
      if node.Some? { OneLatest(trees[b.cid], node.value.id, name); }
    }

    lemma LastInBucket(b: Bucket, name: string, info: ObjectInfo)
      requires b.cid in trees && LastIs(b, name, info)
      ensures info.cid == b.cid
    {
    }

    lemma HitDescribes(b: Bucket, name: string)
      requires Valid() && Has(buckets, b) && b.cid in trees
      requires NiceName(b.name, name) in cache.names && cache.names[NiceName(b.name, name)] in cache.objects
      ensures LastIs(b, name, cache.objects[cache.names[NiceName(b.name, name)]])
    {
      assert AgreeFor(b, Now());
      HitIsLatest(b, trees[b.cid], name, cache.names, cache.objects);
    }

    static lemma NoLatest(t: Tree, name: string)
      ensures (forall id :: id in t ==> t[id].filePath != name) ==> forall id :: !Latest(t, id, name)
    {
    }

    static lemma OneLatest(t: Tree, id: nat, name: string)
      requires ValidTree(t) && Latest(t, id, name)
      ensures forall x :: Latest(t, x, name) ==> x == id
    {
      forall x | Latest(t, x, name) ensures x == id { NewestIs(t, id, x, name); }
    }

    /** A version of an object by its id, from the cache or the storage. */
    method HeadVersion(owner: string, b: Bucket, name: string, versionID: string, headOK: bool)
      returns (r: Option<ObjectInfo>)
      requires Valid() && Has(buckets, b) && b.cid in trees && versionID != ""
      modifies cache
      ensures Valid() && Answered(old(cache.granted), owner, r, headOK, b.cid, cache.granted)
      ensures r.Some? ==>
                exists id :: Means(trees[b.cid], name, versionID, id) && r.value == InfoOf(b, trees[b.cid][id])
      ensures r.None? && headOK ==> NoneMeant(trees[b.cid], name, versionID)
      ensures r.None? ==> forall id :: Means(trees[b.cid], name, versionID, id) ==>
                            !old(cache.Hits(owner, Address(b.cid, trees[b.cid][id].oid)))
      ensures r.Some? ==> cache.Hits(owner, AddressOf(r.value))
    {
      hide Coherent, ValidTree, Means;
      var found := FindVersion(b, name, versionID);
      if found.None? {
        return None;
      }
      MeantIsThere(trees[b.cid], name, versionID, found.value.id);
      OneMeant(trees[b.cid], name, versionID, found.value.id);
      ghost var id := found.value.id;
      var hit := cache.GetObject(owner, Address(b.cid, found.value.oid));
      if hit.Some? {
        CachedDescribes(b, id);
        HitIsGranted(owner, Address(b.cid, found.value.oid));
        return hit;
      }
      if !headOK {
        return None;
      }
      var info := InfoOf(b, found.value);
      ObjectKeeps(buckets, b, Now(), id);
      cache.PutObject(owner, info);
      return Some(info);
    }

    lemma CachedDescribes(b: Bucket, id: nat)
      requires Valid() && Has(buckets, b) && b.cid in trees && id in trees[b.cid]
      requires Address(b.cid, trees[b.cid][id].oid) in cache.objects
      ensures cache.objects[Address(b.cid, trees[b.cid][id].oid)] == InfoOf(b, trees[b.cid][id])
    {
      assert AgreeFor(b, Now());
    }

    /**
     The versions of a prefix, from the cache or the tree: what the tree has now, each once. Without the tree a user
     is answered only a list that was read for that user before.
     */
    method Versions(owner: string, b: Bucket, prefix: string, latestOnly: bool, treeOK: bool)
      returns (r: Option<seq<NodeVersion>>)
      requires Valid() && Has(buckets, b) && b.cid in trees
      modifies cache
      ensures Valid() && (r.Some? ==> ListOf(r.value, trees[b.cid], prefix, latestOnly)) && (r.None? ==> !treeOK)
      ensures if r.None? then !old(cache.HitsList(owner, ObjectsListKey(b.cid, prefix, latestOnly)))
              else KeepsList(owner, ObjectsListKey(b.cid, prefix, latestOnly), r.value)
      ensures || cache.lists == old(cache.lists)
              || (r.Some? && cache.lists == old(cache.lists)[ObjectsListKey(b.cid, prefix, latestOnly) := r.value])
      ensures r.Some? && !treeOK && FixedLengths(old(cache.granted), owner, b.cid) ==>
                Entitled(old(cache.granted), owner, AList(ObjectsListKey(b.cid, prefix, latestOnly)))
      ensures || cache.granted == old(cache.granted)
              || (treeOK && cache.granted ==
                            old(cache.granted) + {Grant(owner, AList(ObjectsListKey(b.cid, prefix, latestOnly)))})
    {
      var key := ObjectsListKey(b.cid, prefix, latestOnly);
      var hit := cache.GetList(owner, key);
      if hit.Some? {
        ListedNow(b, key);
        if FixedLengths(cache.granted, owner, b.cid) { cache.AccessTells(owner, AList(key)); }
        return hit;
      }
      if !treeOK {
        return None;
      }
      hide Coherent, ValidTree, ListOf;
      var list := GetVersionsByPrefix(b.cid, prefix, latestOnly);
      ListKeeps(buckets, b, Now(), key, list);
      cache.PutList(owner, key, list);
      return Some(list);
    }

    /** The next answer is the same list, unless it has no versions. */
    ghost predicate KeepsList(owner: string, key: ObjectsListKey, list: seq<NodeVersion>)
      reads this, cache
    {
      key in cache.lists && cache.lists[key] == list && (list != [] ==> cache.HitsList(owner, key))
    }

    lemma ListedNow(b: Bucket, key: ObjectsListKey)
      requires Valid() && Has(buckets, b) && b.cid in trees && key in cache.lists && key.cid == b.cid
      requires cache.lists[key] != []
      ensures ListOf(cache.lists[key], trees[b.cid], key.prefix, key.latestOnly)
    {
      assert AgreeFor(b, Now());
    }

    /** What a user was answered with grows by some of `more` and by objects that are fetched. */
    static ghost predicate Granting(before: set<Grant>, owner: string, b: Bucket, t: Tree, fetched: set<nat>,
                                    more: set<Grant>, after: set<Grant>)
    {
      && before <= after
      && forall g :: g in after && g !in before && g !in more ==>
           exists id :: id in fetched && id in t && g == Grant(owner, AnObject(Address(b.cid, t[id].oid)))
    }

    /** Those listed objects that were asked for are cached for the user. */
    ghost predicate Fetched(owner: string, cid: string, list: seq<NodeVersion>, fetched: set<nat>)
      reads this, cache
    {
      forall v :: v in list && v.id in fetched && !v.isDeleteMarker ==> cache.Hits(owner, Address(cid, v.oid))
    }

    /** Asks for the objects of some listed versions, as the workers of a listing do, and caches them. */
    method FetchObjects(owner: string, b: Bucket, list: seq<NodeVersion>, fetched: set<nat>)
      requires Valid() && Has(buckets, b) && b.cid in trees
      requires forall v :: v in list ==> v.id in trees[b.cid] && v == trees[b.cid][v.id]
      modifies cache`objects, cache`access, cache`granted
      ensures old(cache.access) <= cache.access && Fetched(owner, b.cid, list, fetched)
      ensures Valid() && Granting(old(cache.granted), owner, b, trees[b.cid], fetched, {}, cache.granted)
    {
      hide Coherent, ValidTree, Valid, Cache.Hits;
      ghost var before := cache.granted;
      for k := 0 to |list|
        invariant Valid() && Granting(before, owner, b, trees[b.cid], fetched, {}, cache.granted)
        invariant old(cache.access) <= cache.access && Fetched(owner, b.cid, list[..k], fetched)
      {
        assert list[k] in list && list[..k + 1] == list[..k] + [list[k]];
        if list[k].id in fetched && !list[k].isDeleteMarker {
          GrantsMore(before, owner, b, trees[b.cid], fetched, list[k].id, cache.granted);
          FetchObject(owner, b, list[k]);
        }
      }
    }

    /** Asks for a listed object; what is cached already is not asked for again. */
    method FetchObject(owner: string, b: Bucket, v: NodeVersion)
      requires Valid() && Has(buckets, b) && b.cid in trees && v.id in trees[b.cid] && v == trees[b.cid][v.id]
      modifies cache`objects, cache`access, cache`granted
      ensures Valid() && old(cache.access) <= cache.access && cache.Hits(owner, Address(b.cid, v.oid))
      ensures forall o, a :: old(cache.Hits(o, a)) ==> cache.Hits(o, a)
      ensures cache.granted == if old(cache.Hits(owner, Address(b.cid, v.oid))) then old(cache.granted)
                               else old(cache.granted) + {Grant(owner, AnObject(Address(b.cid, v.oid)))}
    {
      hide Coherent, ValidTree;
      var hit := cache.GetObject(owner, Address(b.cid, v.oid));
      if hit.None? {
        ObjectKeeps(buckets, b, Now(), v.id);
        cache.PutObject(owner, InfoOf(b, v));
      }
    }

    static lemma GrantsMore(before: set<Grant>, owner: string, b: Bucket, t: Tree, fetched: set<nat>, id: nat,
                            now: set<Grant>)
      requires Granting(before, owner, b, t, fetched, {}, now) && id in fetched && id in t
      ensures Granting(before, owner, b, t, fetched, {}, now + {Grant(owner, AnObject(Address(b.cid, t[id].oid)))})
    {
    }

    /**
     Lists the latest versions of a prefix by path. The cached list is the one that is sorted, and some of the
     objects are fetched.
     */
    method LatestNodes(owner: string, b: Bucket, prefix: string, fetched: set<nat>, treeOK: bool)
      returns (r: Option<seq<NodeVersion>>)
      requires Valid() && Has(buckets, b) && b.cid in trees
      modifies cache
      ensures Valid() && (r.Some? ==> ListOf(r.value, trees[b.cid], prefix, true)) && (r.None? ==> !treeOK)
      ensures if r.None? then !old(cache.HitsList(owner, ObjectsListKey(b.cid, prefix, true)))
              else && KeepsList(owner, ObjectsListKey(b.cid, prefix, true), r.value)
                   && Increasing(NodePath, r.value) && Fetched(owner, b.cid, r.value, fetched)
      ensures r.Some? && !treeOK && FixedLengths(old(cache.granted), owner, b.cid) ==>
                Entitled(old(cache.granted), owner, AList(ObjectsListKey(b.cid, prefix, true)))
      ensures Granting(old(cache.granted), owner, b, trees[b.cid], fetched,
                       if treeOK then {Grant(owner, AList(ObjectsListKey(b.cid, prefix, true)))} else {}, cache.granted)
    {
      hide Coherent, ValidTree, ListOf, Entitled, FixedLengths;
      r := Versions(owner, b, prefix, true, treeOK);
      if r.None? {
        return;
      }
      var sorted := SortCached(b, prefix, r.value);
      FetchObjects(owner, b, sorted, fetched);
      return Some(sorted);
    }

    /** Sorts a list by path, where it is cached as well. */
    method SortCached(b: Bucket, prefix: string, list: seq<NodeVersion>) returns (sorted: seq<NodeVersion>)
      requires Valid() && Has(buckets, b) && b.cid in trees && ListOf(list, trees[b.cid], prefix, true)
      modifies cache`lists
      ensures Valid() && ListOf(sorted, trees[b.cid], prefix, true)
      ensures forall v :: v in sorted ==> v.id in trees[b.cid] && v == trees[b.cid][v.id]
      ensures multiset(sorted) == multiset(list) && Increasing(NodePath, sorted)
      ensures cache.lists == var key := ObjectsListKey(b.cid, prefix, true);
                             if key in old(cache.lists) then old(cache.lists)[key := sorted] else old(cache.lists)
    {
      hide Coherent, ValidTree, ListOf;
      PathsDiffer(list, trees[b.cid], prefix);
      SortIncreases(NodePath, list);
      var key := ObjectsListKey(b.cid, prefix, true);
      sorted := Sort(NodePath, list);
      SortedLists(list, sorted, trees[b.cid], prefix);
      if key in cache.lists {
        ListKeeps(buckets, b, Now(), key, sorted);
        cache.lists := cache.lists[key := sorted];
      }
    }

    /** Latest versions have different paths. */
    static lemma PathsDiffer(list: seq<NodeVersion>, t: Tree, prefix: string)
      requires ValidTree(t) && ListOf(list, t, prefix, true)
      ensures Differing(NodePath, list)
    {
      forall i, j | 0 <= i < j < |list| ensures list[i].filePath != list[j].filePath {
        assert list[i] in list && list[j] in list;
        if list[i].filePath == list[j].filePath { NewestIs(t, list[i].id, list[j].id, list[i].filePath); }
      }
    }

    static lemma SortedLists(list: seq<NodeVersion>, sorted: seq<NodeVersion>, t: Tree, prefix: string)
      requires ListOf(list, t, prefix, true) && multiset(list) == multiset(sorted)
      ensures ListOf(sorted, t, prefix, true)
      ensures forall v :: v in sorted ==> v.id in t && v == t[v.id]
    {
      forall v ensures v in sorted <==> v in list { assert v in multiset(sorted) <==> v in multiset(list); }
      NoDuplicatesStay(list, sorted);
    }

    static lemma NoDuplicatesStay(a: seq<NodeVersion>, b: seq<NodeVersion>)
      requires multiset(a) == multiset(b) && forall i, j :: 0 <= i < j < |a| ==> a[i] != a[j]
      ensures forall i, j :: 0 <= i < j < |b| ==> b[i] != b[j]
    {
      forall x | x in b ensures multiset(b)[x] == 1 {
        assert x in multiset(a);
        OneOccurrence(a, x);
      }
      forall i, j | 0 <= i < j < |b| ensures b[i] != b[j] {
        TwoOccurrences(b, i, j);
      }
    }

    static lemma {:induction false} OneOccurrence(a: seq<NodeVersion>, x: NodeVersion)
      requires forall i, j :: 0 <= i < j < |a| ==> a[i] != a[j]
      ensures multiset(a)[x] <= 1
    {
      if a != [] {
        assert a == [a[0]] + a[1..];
        OneOccurrence(a[1..], x);
        assert a[0] !in a[1..];
        assert multiset(a) == multiset{a[0]} + multiset(a[1..]);
      }
    }

    static lemma TwoOccurrences(b: seq<NodeVersion>, i: nat, j: nat)
      requires i < j < |b|
      ensures b[i] == b[j] ==> multiset(b)[b[i]] >= 2
    {
      assert b == b[..i] + [b[i]] + b[i + 1..j] + [b[j]] + b[j + 1..];
      assert multiset(b) ==
             multiset(b[..i]) + multiset{b[i]} + multiset(b[i + 1..j]) + multiset{b[j]} + multiset(b[j + 1..]);
    }
  }
}
