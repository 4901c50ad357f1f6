/** A client that lists a bucket page by page through the gateway, whose caches may lose entries in between. */
module BucketListings {
  import opened Caches
  import opened Coherence
  import opened Gateways
  import opened Paging
  import opened Sorting
  import opened Strings
  import F = Forests
  import L = Listing

  /** Versions have object ids. */
  ghost predicate HasOids(t: Tree)
  {
    forall id :: id in t ==> t[id].oid != ""
  }

  /** The latest versions of a tree are what the listing works on: one per path, each its own object. */
  lemma ListIsStore(nodes: seq<F.NodeVersion>, t: Tree, prefix: string)
    requires ValidTree(t) && HasOids(t) && ListOf(nodes, t, prefix, true)
    ensures Store(nodes, prefix)
  {
    forall n | n in nodes ensures n.id in t && n == t[n.id] && F.IsLatest(t, n) && HasPrefix(n.filePath, prefix) {
      assert Coherence.Listed(t, n, prefix, true);
    }
    forall i, j | 0 <= i < j < |nodes| ensures nodes[i].filePath != nodes[j].filePath && nodes[i].oid != nodes[j].oid {
      assert nodes[i] in nodes && nodes[j] in nodes;
    }
  }

  /** Lists of one tree give the same pages, in whatever order they are. */
  lemma SamePages(a: seq<F.NodeVersion>, b: seq<F.NodeVersion>, t: Tree, p: L.Params)
    requires ValidTree(t) && HasOids(t) && ListOf(a, t, p.prefix, true) && ListOf(b, t, p.prefix, true)
    ensures L.Page(a, p) == L.Page(b, p)
  {
    ListIsStore(a, t, p.prefix);
    SameElements(a, b, t, p.prefix);
    ArrivalOrderIsLost(F.NodePath, b, a);
  }

  lemma SameElements(a: seq<F.NodeVersion>, b: seq<F.NodeVersion>, t: Tree, prefix: string)
    requires ListOf(a, t, prefix, true) && ListOf(b, t, prefix, true)
    ensures multiset(a) == multiset(b) && (Store(a, prefix) ==> Differing(F.NodePath, b))
  {
    forall v ensures multiset(a)[v] == multiset(b)[v] {
      Gateway.OneOccurrence(a, v);
      Gateway.OneOccurrence(b, v);
      assert v in multiset(a) <==> v in a;
      assert v in multiset(b) <==> v in b;
      assert v in a <==> v in b by { assert v in a <==> Coherence.Listed(t, v, prefix, true); }
    }
    if Store(a, prefix) { DifferInAnyOrder(F.NodePath, a, b); }
  }

  ghost predicate Ready(g: Gateway, b: Bucket, nodes: seq<F.NodeVersion>, p: L.Params)
    reads g, g.cache
  {
    && g.Valid() && Has(g.buckets, b) && b.cid in g.trees && HasOids(g.trees[b.cid])
    && ListOf(nodes, g.trees[b.cid], p.prefix, true)
  }

  lemma ReadyStore(g: Gateway, b: Bucket, nodes: seq<F.NodeVersion>, p: L.Params)
    requires Ready(g, b, nodes, p)
    ensures ValidTree(g.trees[b.cid]) && Store(nodes, p.prefix)
  {
    ListIsStore(nodes, g.trees[b.cid], p.prefix);
  }

  /** The versions a page is made of, after any entries of the caches vanished. */
  method NodesNow(g: Gateway, owner: string, b: Bucket, ghost nodes: seq<F.NodeVersion>, p: L.Params)
    returns (now: seq<F.NodeVersion>)
    requires Ready(g, b, nodes, p)
    modifies g.cache
    ensures Ready(g, b, nodes, p) && L.Page(now, p) == L.Page(nodes, p)
  {
    var someLists: set<ObjectsListKey> := *;
    var someObjects: set<Address> := *;
    var someNames: set<string> := *;
    var someAccess: set<string> := *;
    var fetched: set<nat> := *;
    ReadyStore(g, b, nodes, p);
    hide ValidTree, L.Page, ListOf;
    g.Evict(someLists, someObjects, someNames, someAccess);
    var list := g.LatestNodes(owner, b, p.prefix, fetched, true);
    now := list.value;
    SamePages(now, nodes, g.trees[b.cid], p);
  }

  /** What a client has after some pages: all names, and apart the directories and the objects. */
  datatype Pages = Pages(names: seq<string>, prefixes: seq<string>, objects: seq<L.ListedInfo>)

  /** What a client makes of a page and the pages that follow. */
  function Onto(r: L.ListResult, rest: Pages): Pages
  {
    Pages(r.names + rest.names, r.prefixes + rest.prefixes, r.objects + rest.objects)
  }

  function Together(all: seq<L.ListedInfo>): Pages
  {
    Pages(L.Names(all), L.Names(L.Only(all, true)), L.Only(all, false))
  }

  lemma OntoTogether(r: L.ListResult, page: seq<L.ListedInfo>, rest: seq<L.ListedInfo>)
    requires r.names == L.Names(page) && r.prefixes == L.Names(L.Only(page, true)) && r.objects == L.Only(page, false)
    ensures Onto(r, Together(rest)) == Together(page + rest)
    ensures Pages(r.names, r.prefixes, r.objects) == Together(page)
  {
    L.NamesJoin(page, rest);
    L.OnlyJoin(page, rest, true);
    L.OnlyJoin(page, rest, false);
    L.NamesJoin(L.Only(page, true), L.Only(rest, true));
  }

  /** Following markers: the names are the listing of the bucket, and its directories and objects are told apart. */
  method ListBucketV1(g: Gateway, owner: string, b: Bucket, ghost nodes: seq<F.NodeVersion>, p: L.Params)
    returns (all: Pages)
    requires Ready(g, b, nodes, p) && |p.delimiter| <= 1 && p.maxKeys > 0 && p.token == ""
    modifies g.cache
    ensures Ready(g, b, nodes, p) && Store(nodes, p.prefix)
    ensures IsListing(all.names, nodes, p) && IsContents(all.prefixes, all.objects, nodes, p)
  {
    ReadyStore(g, b, nodes, p);
    hide Ready, IsListing, Store, IsContents;
    assert ValidRequest(nodes, p);
    PagesV1AreTheListing(nodes, p);
    all := FollowPagesV1(g, owner, b, nodes, p);
  }

  method FollowPagesV1(g: Gateway, owner: string, b: Bucket, ghost nodes: seq<F.NodeVersion>, p: L.Params)
    returns (all: Pages)
    requires Ready(g, b, nodes, p) && ValidRequest(nodes, p) && p.token == ""
    modifies g.cache
    ensures Ready(g, b, nodes, p) && all == Together(Flat(FollowV1(nodes, p)))
    decreases |Remaining(nodes, p)|
  {
    hide Ready, ValidRequest, L.Page, Remaining, Together, Onto;
    var now := NodesNow(g, owner, b, nodes, p);
    var r := L.ListObjectsV1(p, now);
    FollowedV1(nodes, p);
    ghost var page := L.Page(nodes, p).0;
    if !r.isTruncated {
      OntoTogether(r, page, []);
      return Pages(r.names, r.prefixes, r.objects);
    }
    ReadyFor(g, b, nodes, p, p.(marker := r.nextMarker));
    var rest := FollowPagesV1(g, owner, b, nodes, p.(marker := r.nextMarker));
    ReadyFor(g, b, nodes, p.(marker := r.nextMarker), p);
    OntoTogether(r, page, Flat(FollowV1(nodes, NextMarker(nodes, p))));
    return Onto(r, rest);
  }

  /** The entries of a page, and those of the pages that follow. */
  lemma FollowedV1(nodes: seq<F.NodeVersion>, p: L.Params)
    requires ValidRequest(nodes, p) && p.token == ""
    ensures L.Page(nodes, p).1.None? ==> Flat(FollowV1(nodes, p)) == L.Page(nodes, p).0
    ensures L.Page(nodes, p).1.Some? ==>
              && L.Page(nodes, p).0 != [] && ValidRequest(nodes, NextMarker(nodes, p))
              && |Remaining(nodes, NextMarker(nodes, p))| < |Remaining(nodes, p)|
              && Flat(FollowV1(nodes, p)) == L.Page(nodes, p).0 + Flat(FollowV1(nodes, NextMarker(nodes, p)))
  {
    hide L.Page, ValidRequest, Remaining;
    var page := L.Page(nodes, p).0;
    if L.Page(nodes, p).1.None? {
      assert Flat([page]) == page + [];
    } else {
      NextMarkerRemains(nodes, p);
      Positive(nodes, p);
      FlatCons(page, FollowV1(nodes, NextMarker(nodes, p)));
    }
  }

  lemma ReadyFor(g: Gateway, b: Bucket, nodes: seq<F.NodeVersion>, p: L.Params, q: L.Params)
    requires Ready(g, b, nodes, p) && p.prefix == q.prefix
    ensures Ready(g, b, nodes, q)
  {
  }

  /**
   Following continuation tokens: the names are the listing of the bucket, and its directories and objects are told
   apart, unless a name equals the token mark and comes behind the first name of the second page.
   */
  method ListBucketV2(g: Gateway, owner: string, b: Bucket, ghost nodes: seq<F.NodeVersion>, p: L.Params,
                      ghost listing: seq<string>)
    returns (all: Pages)
    requires Ready(g, b, nodes, p) && |p.delimiter| <= 1 && p.maxKeys > 0 && p.token == ""
    requires Store(nodes, p.prefix) && IsListing(listing, nodes, p)
    modifies g.cache
    ensures Ready(g, b, nodes, p)
    ensures all.names == listing <==> forall i :: p.maxKeys < i < |listing| ==> listing[i] != L.TOKEN_MET
    ensures all.names == listing <==> IsContents(all.prefixes, all.objects, nodes, p)
  {
    hide Ready, IsListing, Store, IsContents;
    assert ValidRequest(nodes, p);
    PagesV2AreTheListing(nodes, p, listing);
    all := FollowPagesV2(g, owner, b, nodes, p);
  }

  method FollowPagesV2(g: Gateway, owner: string, b: Bucket, ghost nodes: seq<F.NodeVersion>, p: L.Params)
    returns (all: Pages)
    requires Ready(g, b, nodes, p) && ValidRequest(nodes, p)
    modifies g.cache
    ensures Ready(g, b, nodes, p) && all == Together(Flat(FollowV2(nodes, p)))
    decreases |Remaining(nodes, p)|
  {
    hide Ready, ValidRequest, L.Page, Remaining, Together, Onto;
    var now := NodesNow(g, owner, b, nodes, p);
    var r := L.ListObjectsV2(p, now);
    FollowedV2(nodes, p);
    ghost var page := L.Page(nodes, p).0;
    if !r.isTruncated {
      OntoTogether(r, page, []);
      return Pages(r.names, r.prefixes, r.objects);
    }
    TokenShortens(nodes, p);
    ReadyFor(g, b, nodes, p, p.(token := r.nextToken));
    var rest := FollowPagesV2(g, owner, b, nodes, p.(token := r.nextToken));
    ReadyFor(g, b, nodes, p.(token := r.nextToken), p);
    OntoTogether(r, page, Flat(FollowV2(nodes, NextToken(nodes, p))));
    return Onto(r, rest);
  }

  lemma FollowedV2(nodes: seq<F.NodeVersion>, p: L.Params)
    requires ValidRequest(nodes, p)
    ensures L.Page(nodes, p).1.None? ==> Flat(FollowV2(nodes, p)) == L.Page(nodes, p).0
    ensures L.Page(nodes, p).1.Some? ==>
              && ValidRequest(nodes, NextToken(nodes, p))
              && Flat(FollowV2(nodes, p)) == L.Page(nodes, p).0 + Flat(FollowV2(nodes, NextToken(nodes, p)))
  {
    hide L.Page, ValidRequest, Remaining;
    var page := L.Page(nodes, p).0;
    if L.Page(nodes, p).1.None? {
      assert Flat([page]) == page + [];
    } else {
      NextTokenRemains(nodes, p);
      FlatCons(page, FollowV2(nodes, NextToken(nodes, p)));
    }
  }

  lemma TokenShortens(nodes: seq<F.NodeVersion>, p: L.Params)
    requires ValidRequest(nodes, p) && L.Page(nodes, p).1.Some?
    ensures ValidRequest(nodes, NextToken(nodes, p)) && |Remaining(nodes, NextToken(nodes, p))| < |Remaining(nodes, p)|
  {
    hide L.Page, Remaining, ValidRequest, Full, Without, KnownToken;
    Positive(nodes, p);
    NextTokenRemains(nodes, p);
    if p.token == "" { NoToken(nodes, p); }
  }
}
