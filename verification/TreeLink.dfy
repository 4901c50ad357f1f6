/**
 What the gateway takes its trees for is what the client of the tree service makes of them: its version maps are
 the versions of well-formed forests, and its steps are those of the version store.
 */
module TreeLinks {
  import opened BucketListings
  import opened Coherence
  import opened Forests
  import opened Strings
  import opened TreeClients
  import opened VersionStores

  /** The versions of a forest are a tree of the gateway if their object ids are their own. */
  lemma VersionsAreTree(f: Forest)
    requires WellFormed(f) && OneNullVersion(Versions(f))
    ensures HasOids(Versions(f)) && (ValidTree(Versions(f)) <==> OwnOids(Versions(f)))
  {
    hide Comps, Shaped, OneNullVersion, Path, Siblings;
    var t := Versions(f);
    forall id | id in t ensures t[id].id == id { assert Hangs(f, id); }
    forall a, b | a in t && b in t && t[a].filePath == t[b].filePath && t[a].timestamp == t[b].timestamp
      ensures a == b
    {
      SamePath(f, a, b);
    }
  }

  /** What the client finds by prefix is what a list has to have. */
  lemma MatchesIsListed(c: TreeClient, f: Forest, v: NodeVersion, prefix: string, latestOnly: bool)
    requires WellFormed(f)
    ensures c.Matches(f, v, prefix, latestOnly) <==> Listed(Versions(f), v, prefix, latestOnly)
  {
    hide WellFormed, Versions, IsLatest;
  }

  /** A version with a new object id is added as the gateway takes it. */
  lemma AddsIsStores(s: VersionStore, before: Tree, v: NewVersion, id: nat)
    requires s.Valid() && s.Adds(before, v, id) && !HasOid(before, v.oid)
    ensures Stores(before, Versions(s.service.forest), v, id)
  {
    hide WellFormed, Versions, Added, IsNull, OneNullVersion;
  }

  /** The nodes of a path, directories included, with an object id are the versions of that path and id. */
  lemma NodesAreMeant(s: VersionStore, v: NodeVersion, name: string, oid: string)
    requires s.Valid() && oid != ""
    ensures var t := Versions(s.service.forest);
            s.NodeOf(v, name, false) && v.oid == oid <==>
            v.id in t && v == t[v.id] && v.filePath == name && v.oid == oid
  {
    hide Comps, OneNullVersion, Split, Join;
    var f := s.service.forest;
    if v.id in f && HasName(f[v.id]) {
      assert Hangs(f, v.id);
      JoinSplit(name, SEPARATOR);
      SplitJoin(Comps(f, v.id), SEPARATOR);
    }
  }

  // ---- the gateway's steps, by the version store and the client ----

  method AddVersion(s: VersionStore, v: NewVersion) returns (id: nat)
    requires s.Valid() && v.oid != "" && OwnOids(Versions(s.service.forest))
    requires !HasOid(Versions(s.service.forest), v.oid)
    modifies s.service
    ensures s.Valid() && Stores(old(Versions(s.service.forest)), Versions(s.service.forest), v, id)
    ensures ValidTree(Versions(s.service.forest))
  {
    hide WellFormed, Versions, ValidTree, Stores, OneNullVersion, OwnOids;
    ghost var before := Versions(s.service.forest);
    VersionsAreTree(s.service.forest);
    var r := s.AddVersion(v);
    id := r.id;
    AddsIsStores(s, before, v, id);
    StoredTree(before, Versions(s.service.forest), v, id);
  }

  method RemoveVersion(s: VersionStore, id: nat)
    requires s.Valid() && OwnOids(Versions(s.service.forest)) && id in Versions(s.service.forest)
    modifies s.service
    ensures s.Valid() && Versions(s.service.forest) == old(Versions(s.service.forest)) - {id}
    ensures ValidTree(Versions(s.service.forest))
  {
    assert id in s.service.forest && IsVersion(s.service.forest[id]);
    hide WellFormed, Versions, ValidTree, OneNullVersion, OwnOids, IsVersion, TreeOf;
    VersionsAreTree(s.service.forest);
    RemovedTree(Versions(s.service.forest), id);
    var ok := s.RemoveVersion(id);
  }

  method GetVersionsByPrefix(s: VersionStore, c: TreeClient, prefix: string, latestOnly: bool)
    returns (list: seq<NodeVersion>)
    requires s.Valid() && c.service == s.service
    ensures ListOf(list, Versions(s.service.forest), prefix, latestOnly)
  {
    hide WellFormed, Versions, Listed, OneNullVersion;
    var ok;
    list, ok := c.GetVersionsByPrefix(prefix, latestOnly);
    ghost var f := s.service.forest;
    forall v ensures v in list <==> Listed(Versions(f), v, prefix, latestOnly) {
      MatchesIsListed(c, f, v, prefix, latestOnly);
    }
  }
}
