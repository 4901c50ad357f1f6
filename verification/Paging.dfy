/**
 Following markers and continuation tokens through an unchanged bucket: which pages a client gets, and
 when they add up to the listing of the bucket.
 */
module Paging {
  import F = Forests
  import opened Listing
  import opened Sorting
  import opened Strings
  import opened Wrappers

  /** The latest versions of a bucket under a prefix, one per path, each its own object. */
  ghost predicate Store(nodes: seq<NodeVersion>, prefix: string)
  {
    && (forall n :: n in nodes ==> HasPrefix(n.filePath, prefix) && n.oid != "")
    && (forall i, j :: 0 <= i < j < |nodes| ==> nodes[i].filePath != nodes[j].filePath)
    && (forall i, j :: 0 <= i < j < |nodes| ==> nodes[i].oid != nodes[j].oid)
  }

  /** The same in the order of the paths. */
  ghost predicate Ordered(nodes: seq<NodeVersion>, prefix: string)
  {
    Store(nodes, prefix) && Increasing(F.NodePath, nodes)
  }

  lemma SortOrders(nodes: seq<NodeVersion>, prefix: string)
    requires Store(nodes, prefix)
    ensures Ordered(Sort(F.NodePath, nodes), prefix)
    ensures forall n :: n in Sort(F.NodePath, nodes) <==> n in nodes
  {
    var sorted := Sort(F.NodePath, nodes);
    SortIncreases(F.NodePath, nodes);
    forall n ensures n in sorted <==> n in nodes {
      assert n in sorted <==> n in multiset(sorted);
    }
    DifferInAnyOrder(F.NodePath, nodes, sorted);
    DifferInAnyOrder(NodeOid, nodes, sorted);
    forall i, j | 0 <= i < j < |sorted|
      ensures sorted[i].oid != sorted[j].oid && sorted[i].filePath != sorted[j].filePath
    {
      assert NodeOid(sorted[i]) != NodeOid(sorted[j]) && F.NodePath(sorted[i]) != F.NodePath(sorted[j]);
    }
  }

  function NodeOid(n: NodeVersion): string { n.oid }

  /** A name that S3 lists: that of a live key, behind the name to start after. */
  ghost predicate Listed(name: string, nodes: seq<NodeVersion>, p: Params)
    requires Store(nodes, p.prefix)
  {
    Lt(p.marker, name) &&
    exists n :: n in nodes && !n.isDeleteMarker && RollUp(n.filePath, p.prefix, p.delimiter) == name
  }

  /** The listing of a bucket: every listed name once, in order. */
  ghost predicate IsListing(names: seq<string>, nodes: seq<NodeVersion>, p: Params)
    requires Store(nodes, p.prefix)
  {
    && (forall i, j :: 0 <= i < j < |names| ==> Lt(names[i], names[j]))
    && (forall name :: name in names <==> Listed(name, nodes, p))
  }

  /** There is only one listing. */
  lemma ListingIsUnique(a: seq<string>, b: seq<string>, nodes: seq<NodeVersion>, p: Params)
    requires Store(nodes, p.prefix)
    requires IsListing(a, nodes, p) && IsListing(b, nodes, p)
    ensures a == b
  {
    IncreasingSameElements(a, b);
  }

  lemma EmptyHasNone(a: seq<string>, b: seq<string>)
    requires forall x :: x in a ==> x in b
    ensures b == [] ==> a == []
  {
    if a != [] { assert a[0] in b; }
  }

  lemma {:induction false} IncreasingSameElements(a: seq<string>, b: seq<string>)
    requires forall i, j :: 0 <= i < j < |a| ==> Lt(a[i], a[j])
    requires forall i, j :: 0 <= i < j < |b| ==> Lt(b[i], b[j])
    requires forall x :: x in a <==> x in b
    ensures a == b
  {
    if a == [] || b == [] {
      EmptyHasNone(a, b);
      EmptyHasNone(b, a);
    } else {
      assert a[0] in b;
      assert b[0] in a;
      if a[0] != b[0] { LtAsymmetric(a[0], b[0]); }
      forall x ensures x in a[1..] <==> x in b[1..] {
        assert x in a[1..] ==> x in a && x != a[0] by {
          if x in a[1..] { LtIrreflexive(x); }
        }
        assert x in b[1..] ==> x in b && x != b[0] by {
          if x in b[1..] { LtIrreflexive(x); }
        }
        assert x in a && x != a[0] ==> x in a[1..];
        assert x in b && x != b[0] ==> x in b[1..];
      }
      IncreasingSameElements(a[1..], b[1..]);
    }
  }

  // ---- what a request sends, without its bookkeeping ----

  /** The first live node of every name behind `last` that is not `banned`. */
  function After(nodes: seq<NodeVersion>, p: Params, last: string, banned: set<string>): seq<NodeVersion>
  {
    if nodes == [] then []
    else if nodes[0].isDeleteMarker || Le(NameOf(nodes[0], p), last) || NameOf(nodes[0], p) in banned
    then After(nodes[1..], p, last, banned)
    else [nodes[0]] + After(nodes[1..], p, NameOf(nodes[0], p), banned)
  }

  function Take<T>(s: seq<T>, n: nat): seq<T>
  {
    if |s| <= n then s else s[..n]
  }

  lemma RestOrdered(nodes: seq<NodeVersion>, p: Params, i: nat)
    requires Ordered(nodes, p.prefix) && i <= |nodes|
    ensures Ordered(nodes[i..], p.prefix)
  {
    forall j, k | 0 <= j < k < |nodes[i..]| ensures Lt(F.NodePath(nodes[i..][j]), F.NodePath(nodes[i..][k])) {
      assert nodes[i..][j] == nodes[i + j] && nodes[i..][k] == nodes[i + k];
    }
  }

  /** Later nodes have no smaller names. */
  lemma NamesOrdered(nodes: seq<NodeVersion>, p: Params, i: nat, j: nat)
    requires Ordered(nodes, p.prefix) && |p.delimiter| <= 1 && i <= j < |nodes|
    ensures Le(NameOf(nodes[i], p), NameOf(nodes[j], p))
  {
    if i < j {
      assert Lt(F.NodePath(nodes[i]), F.NodePath(nodes[j]));
      NamesAreMonotone(nodes[i].filePath, nodes[j].filePath, p.prefix, p.delimiter);
    }
  }

  /** For the names still to come, the bookkeeping says the same as `last` and `banned`. */
  ghost predicate Tracks(nodes: seq<NodeVersion>, p: Params, existed: set<string>, last: string, banned: set<string>)
  {
    forall i :: 0 <= i < |nodes| ==>
      ((NameOf(nodes[i], p) in existed || Le(NameOf(nodes[i], p), p.marker)) <==>
       (NameOf(nodes[i], p) in banned || Le(NameOf(nodes[i], p), last)))
  }

  lemma {:induction false} SentIsAfter(nodes: seq<NodeVersion>, p: Params, existed: set<string>, room: nat,
                                       last: string, banned: set<string>)
    requires Ordered(nodes, p.prefix) && |p.delimiter| <= 1
    requires p.token == "" || TOKEN_MET in existed
    requires Tracks(nodes, p, existed, last, banned)
    ensures Sent(nodes, p, existed, room) == Take(After(nodes, p, last, banned), room)
    decreases |nodes|
  {
    hide NameOf, Ordered, Le;
    if nodes != [] && room > 0 {
      var n, rest := nodes[0], nodes[1..];
      RestOrdered(nodes, p, 1);
      var (skip, existed') := Skip(n, p, existed);
      if skip {
        assert Tracks(rest, p, existed, last, banned) by {
          forall i | 0 <= i < |rest| ensures rest[i] == nodes[i + 1] {}
        }
        SentIsAfter(rest, p, existed, room, last, banned);
      } else {
        var name := NameOf(n, p);
        TrackSent(nodes, p, existed, last, banned);
        SentIsAfter(rest, p, existed', room - 1, name, banned);
      }
    }
  }

  lemma TrackSent(nodes: seq<NodeVersion>, p: Params, existed: set<string>, last: string, banned: set<string>)
    requires Ordered(nodes, p.prefix) && |p.delimiter| <= 1 && nodes != []
    requires Tracks(nodes, p, existed, last, banned)
    requires NameOf(nodes[0], p) !in existed && !Le(NameOf(nodes[0], p), p.marker)
    ensures Tracks(nodes[1..], p, existed + {NameOf(nodes[0], p)}, NameOf(nodes[0], p), banned)
  {
    hide NameOf, Lt, Ordered;
    var name, rest := NameOf(nodes[0], p), nodes[1..];
    assert !Le(name, last) && name !in banned;
    LtTotal(name, last);
    forall i | 0 <= i < |rest|
      ensures (NameOf(rest[i], p) in existed + {name} || Le(NameOf(rest[i], p), p.marker)) <==>
              (NameOf(rest[i], p) in banned || Le(NameOf(rest[i], p), name))
    {
      var m := NameOf(rest[i], p);
      assert rest[i] == nodes[i + 1];
      NamesOrdered(nodes, p, 0, i + 1);
      if m != name {
        LtTransitive(last, name, m);
        LtAsymmetric(last, m);
        LtAsymmetric(name, m);
      }
    }
  }

  /** What is sent are live nodes with increasing names behind `last`, none of them banned. */
  lemma {:induction false} AfterSound(nodes: seq<NodeVersion>, p: Params, last: string, banned: set<string>)
    ensures var l := After(nodes, p, last, banned);
            && (forall n :: n in l ==>
              n in nodes && !n.isDeleteMarker && Lt(last, NameOf(n, p)) && NameOf(n, p) !in banned)
            && (forall i, j :: 0 <= i < j < |l| ==> Lt(NameOf(l[i], p), NameOf(l[j], p)))
  {
    hide NameOf, Lt;
    if nodes != [] {
      var first, rest := nodes[0], nodes[1..];
      var name := NameOf(first, p);
      if first.isDeleteMarker || Le(name, last) || name in banned {
        AfterSound(rest, p, last, banned);
      } else {
        AfterSound(rest, p, name, banned);
        var l' := After(rest, p, name, banned);
        LtTotal(name, last);
        forall n | n in l' ensures Lt(last, NameOf(n, p)) && Lt(name, NameOf(n, p)) {
          LtTransitive(last, name, NameOf(n, p));
        }
      }
    }
  }

  /** Every live node behind `last` that is not banned has its name sent. */
  lemma {:induction false} AfterComplete(nodes: seq<NodeVersion>, p: Params, last: string, banned: set<string>,
                                         n: NodeVersion)
    requires Ordered(nodes, p.prefix) && |p.delimiter| <= 1
    requires n in nodes && !n.isDeleteMarker && Lt(last, NameOf(n, p)) && NameOf(n, p) !in banned
    ensures exists m :: m in After(nodes, p, last, banned) && NameOf(m, p) == NameOf(n, p)
    decreases |nodes|
  {
    hide NameOf, Lt, Ordered;
    var first, rest := nodes[0], nodes[1..];
    var name := NameOf(first, p);
    RestOrdered(nodes, p, 1);
    if first.isDeleteMarker || Le(name, last) || name in banned {
      if Lt(name, last) { LtAsymmetric(name, last); }
      LtIrreflexive(last);
      AfterComplete(rest, p, last, banned, n);
    } else if NameOf(n, p) == name {
      assert first in After(nodes, p, last, banned);
    } else {
      var k :| 0 <= k < |nodes| && nodes[k] == n;
      NamesOrdered(nodes, p, 0, k);
      assert n in rest;
      AfterComplete(rest, p, name, banned, n);
      var m :| m in After(rest, p, name, banned) && NameOf(m, p) == NameOf(n, p);
      assert m in After(nodes, p, last, banned);
    }
  }

  /** Going on behind a name that was sent gives what was to follow. */
  lemma {:induction false} AfterCut(nodes: seq<NodeVersion>, p: Params, last: string, banned: set<string>, k: nat)
    requires k < |After(nodes, p, last, banned)|
    ensures var l := After(nodes, p, last, banned); After(nodes, p, NameOf(l[k], p), banned) == l[k + 1..]
  {
    hide NameOf, Lt;
    var l := After(nodes, p, last, banned);
    var first, rest := nodes[0], nodes[1..];
    var name, cut := NameOf(first, p), NameOf(l[k], p);
    AfterSound(nodes, p, last, banned);
    assert l[k] in l;
    if first.isDeleteMarker || Le(name, last) || name in banned {
      if Le(name, last) { LeTransitive(name, last, cut); }
      AfterCut(rest, p, last, banned, k);
    } else {
      var l' := After(rest, p, name, banned);
      assert l == [first] + l';
      if k > 0 {
        assert l[0] == first && Lt(name, cut);
        AfterCut(rest, p, name, banned, k - 1);
        assert l[k + 1..] == l'[k..];
      }
    }
  }

  function Without(nodes: seq<NodeVersion>, p: Params, name: string): (r: seq<NodeVersion>)
    ensures |r| <= |nodes|
  {
    if nodes == [] then []
    else if NameOf(nodes[0], p) == name then Without(nodes[1..], p, name)
    else [nodes[0]] + Without(nodes[1..], p, name)
  }

  /** Banning a name removes it and nothing else. */
  lemma {:induction false} AfterBanned(nodes: seq<NodeVersion>, p: Params, last: string, last': string, name: string)
    requires Ordered(nodes, p.prefix) && |p.delimiter| <= 1
    requires last' == last || (last == name && Lt(last', name) &&
               forall i :: 0 <= i < |nodes| ==> Le(name, NameOf(nodes[i], p)))
    ensures After(nodes, p, last', {name}) == Without(After(nodes, p, last, {}), p, name)
    decreases |nodes|
  {
    hide NameOf, Lt, Ordered;
    if nodes != [] {
      var first, rest := nodes[0], nodes[1..];
      var m := NameOf(first, p);
      RestOrdered(nodes, p, 1);
      forall i | 0 <= i < |rest| ensures Le(m, NameOf(rest[i], p)) {
        NamesOrdered(nodes, p, 0, i + 1);
      }
      assert last' != last ==> (Le(m, last) <==> m == name) by {
        if Lt(m, name) && Le(name, m) { LtAsymmetric(m, name); LtIrreflexive(m); }
      }
      assert last' != last && m != name ==> !Le(m, last') by {
        if last' != last && m != name {
          LtTransitive(last', name, m); LtAsymmetric(last', m);
        }
      }
      if first.isDeleteMarker || Le(m, last) {
        AfterBanned(rest, p, last, last', name);
      } else if m == name {
        LtTotal(m, last);
        AfterBanned(rest, p, name, last', name);
      } else {
        AfterBanned(rest, p, m, m, name);
      }
    }
  }

  // ---- requests in terms of the listing ----

  /** The first node of every name to be listed, in order. */
  function Full(nodes: seq<NodeVersion>, p: Params): seq<NodeVersion>
  {
    After(Sort(F.NodePath, nodes), p, p.marker, {})
  }

  function FindOid(nodes: seq<NodeVersion>, oid: string): (i: nat)
    ensures i <= |nodes| && (i < |nodes| ==> nodes[i].oid == oid)
    ensures i == |nodes| ==> forall n :: n in nodes ==> n.oid != oid
  {
    if nodes == [] || nodes[0].oid == oid then 0 else 1 + FindOid(nodes[1..], oid)
  }

  /** A token that an earlier page gave out, or none. */
  predicate KnownToken(nodes: seq<NodeVersion>, p: Params)
  {
    p.token == "" || FindOid(Full(nodes, p), p.token) < |Full(nodes, p)|
  }

  /** What is left to list from the token on: a listed name equal to the token mark is lost behind it. */
  function Remaining(nodes: seq<NodeVersion>, p: Params): seq<NodeVersion>
    requires KnownToken(nodes, p)
  {
    var l := Full(nodes, p);
    if p.token == "" then l
    else
      var k := FindOid(l, p.token);
      [l[k]] + Without(l[k + 1..], p, TOKEN_MET)
  }

  ghost predicate ValidRequest(nodes: seq<NodeVersion>, p: Params)
  {
    Store(nodes, p.prefix) && |p.delimiter| <= 1 && p.maxKeys > 0 && KnownToken(nodes, p)
  }

  /** Nothing is sent before the node that the token names. */
  lemma {:induction false} TokenReached(nodes: seq<NodeVersion>, p: Params, j: nat, room: nat)
    requires j < |nodes| && room > 0 && p.token != "" && nodes[j].oid == p.token
    requires forall i :: 0 <= i < j ==> nodes[i].oid != p.token
    requires !nodes[j].isDeleteMarker && !Le(NameOf(nodes[j], p), p.marker)
    ensures Sent(nodes, p, {}, room) ==
            [nodes[j]] + Sent(nodes[j + 1..], p, {TOKEN_MET, NameOf(nodes[j], p)}, room - 1)
  {
    hide NameOf, Le;
    if j == 0 {
      assert {} + {TOKEN_MET, NameOf(nodes[0], p)} == {TOKEN_MET, NameOf(nodes[0], p)};
    } else {
      assert nodes[1..][j - 1] == nodes[j] && nodes[1..][j..] == nodes[j + 1..];
      TokenReached(nodes[1..], p, j - 1, room);
    }
  }

  /** Nodes with names up to `last` make no difference. */
  lemma {:induction false} AfterSkips(nodes: seq<NodeVersion>, p: Params, j: nat, last: string)
    requires j <= |nodes| && forall i :: 0 <= i < j ==> Le(NameOf(nodes[i], p), last)
    ensures After(nodes, p, last, {}) == After(nodes[j..], p, last, {})
  {
    hide NameOf, Le;
    if j > 0 {
      assert nodes[1..][j - 1..] == nodes[j..];
      AfterSkips(nodes[1..], p, j - 1, last);
    } else {
      assert nodes[0..] == nodes;
    }
  }

  /** A request sends the first nodes of what remains. */
  lemma RemainingSent(nodes: seq<NodeVersion>, p: Params, room: nat)
    requires ValidRequest(nodes, p)
    ensures Sent(Sort(F.NodePath, nodes), p, {}, room) == Take(Remaining(nodes, p), room)
  {
    hide NameOf, Lt, Sort, Ordered;
    SortOrders(nodes, p.prefix);
    if p.token == "" {
      SentIsAfter(Sort(F.NodePath, nodes), p, {}, room, p.marker, {});
    } else if room > 0 {
      TokenSent(nodes, p, room);
    }
  }

  /** Going on behind a token. */
  lemma TokenSent(nodes: seq<NodeVersion>, p: Params, room: nat)
    requires ValidRequest(nodes, p) && p.token != "" && room > 0 && Ordered(Sort(F.NodePath, nodes), p.prefix)
    ensures Sent(Sort(F.NodePath, nodes), p, {}, room) == Take(Remaining(nodes, p), room)
  {
    var l := Full(nodes, p);
    var k := FindOid(l, p.token);
    hide NameOf, Lt, Le, Sort, Ordered, Sent, After, Without, Take;
    TokenSentAt(Sort(F.NodePath, nodes), p, room, l, k);
    TakeCons(l[k], Without(l[k + 1..], p, TOKEN_MET), room);
  }

  lemma TakeCons(n: NodeVersion, rest: seq<NodeVersion>, room: nat)
    requires room > 0
    ensures Take([n] + rest, room) == [n] + Take(rest, room - 1)
  {
  }

  lemma TokenSentAt(sorted: seq<NodeVersion>, p: Params, room: nat, l: seq<NodeVersion>, k: nat)
    requires Ordered(sorted, p.prefix) && |p.delimiter| <= 1 && l == After(sorted, p, p.marker, {}) && room > 0
    requires k < |l| && l[k].oid == p.token && p.token != ""
    ensures Sent(sorted, p, {}, room) == [l[k]] + Take(Without(l[k + 1..], p, TOKEN_MET), room - 1)
  {
    hide NameOf, Lt, Ordered, Sent, After, Without, Take;
    var n := l[k];
    AfterSound(sorted, p, p.marker, {});
    assert n in l;
    var j :| 0 <= j < |sorted| && sorted[j] == n;
    FirstWithOid(sorted, p, j);
    if Le(NameOf(n, p), p.marker) { LtIrreflexive(p.marker); LtAsymmetric(p.marker, NameOf(n, p)); }
    TokenReached(sorted, p, j, room);
    BehindToken(sorted, p, j, room - 1);
    AfterCut(sorted, p, p.marker, {}, k);
  }

  lemma FirstWithOid(nodes: seq<NodeVersion>, p: Params, j: nat)
    requires Ordered(nodes, p.prefix) && j < |nodes|
    ensures forall i :: 0 <= i < j ==> nodes[i].oid != nodes[j].oid
  {
  }

  /** Behind the token, everything with a larger name is sent, except a name equal to the token mark. */
  lemma BehindToken(nodes: seq<NodeVersion>, p: Params, j: nat, room: nat)
    requires Ordered(nodes, p.prefix) && |p.delimiter| <= 1 && j < |nodes|
    requires !Le(NameOf(nodes[j], p), p.marker)
    ensures var name := NameOf(nodes[j], p);
            Sent(nodes[j + 1..], p, {TOKEN_MET, name}, room) ==
            Take(Without(After(nodes, p, name, {}), p, TOKEN_MET), room)
  {
    hide NameOf, Lt, Ordered;
    var name, rest := NameOf(nodes[j], p), nodes[j + 1..];
    RestOrdered(nodes, p, j + 1);
    LtTotal(name, p.marker);
    forall i | 0 <= i < |rest|
      ensures (NameOf(rest[i], p) in {TOKEN_MET, name} || Le(NameOf(rest[i], p), p.marker)) <==>
              (NameOf(rest[i], p) in {TOKEN_MET} || Le(NameOf(rest[i], p), name))
    {
      var m := NameOf(rest[i], p);
      assert rest[i] == nodes[j + 1 + i];
      NamesOrdered(nodes, p, j, j + 1 + i);
      if m != name {
        LtTransitive(p.marker, name, m);
        LtAsymmetric(p.marker, m);
        LtAsymmetric(name, m);
      }
    }
    SentIsAfter(rest, p, {TOKEN_MET, name}, room, name, {TOKEN_MET});
    AfterBanned(rest, p, name, name, TOKEN_MET);
    forall i | 0 <= i < j + 1 ensures Le(NameOf(nodes[i], p), name) { NamesOrdered(nodes, p, i, j); }
    AfterSkips(nodes, p, j + 1, name);
  }

  // ---- pages ----

  lemma WithoutSound(nodes: seq<NodeVersion>, p: Params, name: string)
    requires forall i, j :: 0 <= i < j < |nodes| ==> Lt(NameOf(nodes[i], p), NameOf(nodes[j], p))
    ensures var w := Without(nodes, p, name);
            && (forall n :: n in w ==> n in nodes && NameOf(n, p) != name)
            && (forall i, j :: 0 <= i < j < |w| ==> Lt(NameOf(w[i], p), NameOf(w[j], p)))
    ensures |Without(nodes, p, name)| == |nodes| <==> forall n :: n in nodes ==> NameOf(n, p) != name
    ensures |Without(nodes, p, name)| == |nodes| ==> Without(nodes, p, name) == nodes
  {
    hide NameOf, Lt, Without;
    assert NamesAscend(nodes, p);
    WithoutHas(nodes, p, name);
    WithoutOrdered(nodes, p, name);
    WithoutLength(nodes, p, name);
  }

  lemma {:induction false} WithoutHas(nodes: seq<NodeVersion>, p: Params, name: string)
    ensures forall n :: n in Without(nodes, p, name) <==> n in nodes && NameOf(n, p) != name
  {
    hide NameOf;
    if nodes != [] {
      WithoutHas(nodes[1..], p, name);
      assert forall n :: n in nodes <==> n == nodes[0] || n in nodes[1..];
    }
  }

  ghost predicate NamesAscend(nodes: seq<NodeVersion>, p: Params)
  {
    forall i, j :: 0 <= i < j < |nodes| ==> Lt(NameOf(nodes[i], p), NameOf(nodes[j], p))
  }

  lemma {:induction false} WithoutOrdered(nodes: seq<NodeVersion>, p: Params, name: string)
    requires NamesAscend(nodes, p)
    ensures NamesAscend(Without(nodes, p, name), p)
  {
    hide NameOf, Lt, NamesAscend;
    if nodes != [] {
      RestAscends(nodes, p);
      WithoutOrdered(nodes[1..], p, name);
      WithoutHas(nodes[1..], p, name);
      FirstAscends(nodes, Without(nodes[1..], p, name), p);
    }
  }

  lemma RestAscends(nodes: seq<NodeVersion>, p: Params)
    requires nodes != [] && NamesAscend(nodes, p)
    ensures NamesAscend(nodes[1..], p)
  {
    hide NameOf, Lt;
  }

  lemma FirstAscends(nodes: seq<NodeVersion>, w: seq<NodeVersion>, p: Params)
    requires nodes != [] && NamesAscend(nodes, p) && NamesAscend(w, p) && forall n :: n in w ==> n in nodes[1..]
    ensures NamesAscend([nodes[0]] + w, p)
  {
    hide NameOf, Lt;
    forall j | 0 <= j < |w| ensures Lt(NameOf(nodes[0], p), NameOf(w[j], p)) {
      assert w[j] in nodes[1..];
      var k :| 0 <= k < |nodes[1..]| && nodes[1..][k] == w[j];
      assert nodes[k + 1] == w[j];
    }
  }

  lemma {:induction false} WithoutLength(nodes: seq<NodeVersion>, p: Params, name: string)
    ensures |Without(nodes, p, name)| == |nodes| <==> forall n :: n in nodes ==> NameOf(n, p) != name
    ensures |Without(nodes, p, name)| == |nodes| ==> Without(nodes, p, name) == nodes
  {
    hide NameOf;
    if nodes != [] {
      WithoutLength(nodes[1..], p, name);
      assert forall n :: n in nodes <==> n == nodes[0] || n in nodes[1..];
    }
  }

  lemma RemainingNames(nodes: seq<NodeVersion>, p: Params)
    requires ValidRequest(nodes, p)
    ensures NamesAscend(Remaining(nodes, p), p)
  {
    hide NamesAscend, Sort, After, Without;
    FullAscends(nodes, p);
    if p.token != "" {
      var l := Full(nodes, p);
      var k := FindOid(l, p.token);
      BehindAscends(l, p, k, TOKEN_MET);
    }
  }

  lemma FullAscends(nodes: seq<NodeVersion>, p: Params)
    ensures NamesAscend(Full(nodes, p), p)
  {
    hide NameOf, Lt, Sort, After;
    AfterSound(Sort(F.NodePath, nodes), p, p.marker, {});
  }

  lemma BehindAscends(l: seq<NodeVersion>, p: Params, k: nat, name: string)
    requires k < |l| && NamesAscend(l, p)
    ensures NamesAscend([l[k]] + Without(l[k + 1..], p, name), p)
  {
    hide NameOf, Lt, Without;
    var s := l[k..];
    assert NamesAscend(s, p) && s[0] == l[k] && s[1..] == l[k + 1..];
    hide NamesAscend;
    RestAscends(s, p);
    WithoutOrdered(l[k + 1..], p, name);
    WithoutHas(l[k + 1..], p, name);
    FirstAscends(s, Without(l[k + 1..], p, name), p);
  }

  lemma InfosIncrease(nodes: seq<NodeVersion>, p: Params)
    requires forall i, j :: 0 <= i < j < |nodes| ==> Lt(NameOf(nodes[i], p), NameOf(nodes[j], p))
    ensures Increasing(InfoName, Infos(nodes, p))
  {
    hide Lt, ListedName, TryDirectoryName;
    var infos := Infos(nodes, p);
    forall i, j | 0 <= i < j < |infos| ensures Lt(InfoName(infos[i]), InfoName(infos[j])) {
      assert Lt(NameOf(nodes[i], p), NameOf(nodes[j], p));
    }
  }

  /** A page is the beginning of what remains, and the first node behind it is where to go on. */
  lemma PageIs(nodes: seq<NodeVersion>, p: Params)
    requires ValidRequest(nodes, p)
    ensures var r := Remaining(nodes, p);
            && Page(nodes, p).0 == Infos(Take(r, p.maxKeys), p)
            && Page(nodes, p).1 == if |r| > p.maxKeys then Some(InfoOf(r[p.maxKeys], p)) else None
  {
    hide Lt, Sort, Sent, Remaining, ListedName, TryDirectoryName, Infos, Store, KnownToken;
    var r := Remaining(nodes, p);
    RemainingSent(nodes, p, p.maxKeys + 1);
    RemainingNames(nodes, p);
    InfosIncrease(Take(r, p.maxKeys + 1), p);
    var infos := Infos(Take(r, p.maxKeys + 1), p);
    SortedStays(InfoName, infos);
    if |r| > p.maxKeys {
      assert infos[..p.maxKeys] == Infos(Take(r, p.maxKeys), p);
    } else {
      assert infos == Infos(Take(r, p.maxKeys), p);
    }
  }

  function NodeNames(nodes: seq<NodeVersion>, p: Params): (r: seq<string>)
    ensures |r| == |nodes|
    ensures forall i :: 0 <= i < |nodes| ==> r[i] == NameOf(nodes[i], p)
  {
    if nodes == [] then [] else [NameOf(nodes[0], p)] + NodeNames(nodes[1..], p)
  }

  lemma PageNames(nodes: seq<NodeVersion>, p: Params)
    requires ValidRequest(nodes, p)
    ensures Names(Page(nodes, p).0) == NodeNames(Take(Remaining(nodes, p), p.maxKeys), p)
  {
    hide Page, Remaining;
    PageIs(nodes, p);
  }

  function Flat<T>(pages: seq<seq<T>>): seq<T>
  {
    if pages == [] then [] else pages[0] + Flat(pages[1..])
  }

  lemma {:induction false} NamesOfInfos(nodes: seq<NodeVersion>, p: Params)
    ensures Names(Infos(nodes, p)) == NodeNames(nodes, p)
  {
    hide NameOf;
    forall i | 0 <= i < |nodes| ensures Names(Infos(nodes, p))[i] == NodeNames(nodes, p)[i] { NameIsInfo(nodes[i], p); }
  }

  // ---- version 1: going on behind the last name ----

  function NextMarker(nodes: seq<NodeVersion>, p: Params): Params
    requires Page(nodes, p).0 != []
  {
    var objects := Page(nodes, p).0;
    p.(marker := objects[|objects| - 1].name)
  }

  lemma NextMarkerRemains(nodes: seq<NodeVersion>, p: Params)
    requires ValidRequest(nodes, p) && p.token == "" && Page(nodes, p).1.Some?
    ensures Page(nodes, p).0 != [] && ValidRequest(nodes, NextMarker(nodes, p))
    ensures p.maxKeys < |Remaining(nodes, p)|
    ensures Remaining(nodes, NextMarker(nodes, p)) == Remaining(nodes, p)[p.maxKeys..]
  {
    hide Page, Sort, NameOf, Store, Full, Infos;
    PageIs(nodes, p);
    LastInfo(Full(nodes, p), p, p.maxKeys);
    RemainsBehind(nodes, p, NextMarker(nodes, p), p.maxKeys);
  }

  lemma LastInfo(l: seq<NodeVersion>, p: Params, m: nat)
    requires 0 < m < |l|
    ensures Infos(Take(l, m), p) != [] && Infos(Take(l, m), p)[m - 1].name == NameOf(l[m - 1], p)
  {
    assert Take(l, m)[m - 1] == l[m - 1];
    NameIsInfo(l[m - 1], p);
  }

  /** What is behind the name of a node of the listing. */
  lemma RemainsBehind(nodes: seq<NodeVersion>, p: Params, p': Params, m: nat)
    requires 0 < m < |Full(nodes, p)| && p' == p.(marker := NameOf(Full(nodes, p)[m - 1], p))
    ensures Full(nodes, p') == Full(nodes, p)[m..]
  {
    hide Sort, NameOf, After;
    AfterCut(Sort(F.NodePath, nodes), p, p.marker, {}, m - 1);
    SameNames(Sort(F.NodePath, nodes), p, p', p'.marker);
  }

  lemma NameIsInfo(n: NodeVersion, p: Params)
    ensures InfoOf(n, p).name == NameOf(n, p)
  {
  }

  lemma {:induction false} SameNames(nodes: seq<NodeVersion>, p: Params, p': Params, last: string)
    requires p.prefix == p'.prefix && p.delimiter == p'.delimiter
    ensures After(nodes, p, last, {}) == After(nodes, p', last, {})
  {
    hide Le;
    if nodes != [] {
      assert NameOf(nodes[0], p) == NameOf(nodes[0], p');
      SameNames(nodes[1..], p, p', last);
      SameNames(nodes[1..], p, p', NameOf(nodes[0], p));
    }
  }

  /** The pages a client gets that asks until a page is not truncated. */
  function FollowV1(nodes: seq<NodeVersion>, p: Params): seq<seq<ListedInfo>>
    requires ValidRequest(nodes, p) && p.token == ""
    decreases |Remaining(nodes, p)|
  {
    var (objects, next) := Page(nodes, p);
    if next.None? then [objects]
    else
      NextMarkerRemains(nodes, p);
      [objects] + FollowV1(nodes, NextMarker(nodes, p))
  }

  lemma {:induction false} FlatV1(nodes: seq<NodeVersion>, p: Params)
    requires ValidRequest(nodes, p) && p.token == ""
    ensures Flat(FollowV1(nodes, p)) == Infos(Full(nodes, p), p)
    decreases |Remaining(nodes, p)|
  {
    hide Page, ValidRequest, Remaining, Full, Infos;
    var l := Remaining(nodes, p);
    var head := Page(nodes, p).0;
    assert l == Full(nodes, p) by { NoToken(nodes, p); }
    PageIs(nodes, p);
    if Page(nodes, p).1.None? {
      assert Flat([head]) == head + [];
    } else {
      NextMarkerRemains(nodes, p);
      var p' := NextMarker(nodes, p);
      assert |Remaining(nodes, p')| == |l| - p.maxKeys < |l| by { Positive(nodes, p); }
      FlatV1(nodes, p');
      NoToken(nodes, p');
      assert FollowV1(nodes, p) == [head] + FollowV1(nodes, p');
      FlatCons(head, FollowV1(nodes, p'));
      SplitInfos(l, p, p', p.maxKeys);
    }
  }

  lemma NoToken(nodes: seq<NodeVersion>, p: Params)
    requires p.token == ""
    ensures KnownToken(nodes, p) && Remaining(nodes, p) == Full(nodes, p)
  {
  }

  lemma FlatCons<T>(head: seq<T>, tail: seq<seq<T>>)
    ensures Flat([head] + tail) == head + Flat(tail)
  {
    assert ([head] + tail)[1..] == tail;
  }

  lemma SplitInfos(l: seq<NodeVersion>, p: Params, p': Params, k: nat)
    requires k <= |l| && p.prefix == p'.prefix && p.delimiter == p'.delimiter
    ensures Infos(l[..k], p) + Infos(l[k..], p') == Infos(l, p)
  {
    hide ListedName, TryDirectoryName;
    var a, b, c := Infos(l[..k], p), Infos(l[k..], p'), Infos(l, p);
    forall i | 0 <= i < |l| ensures (a + b)[i] == c[i] {
      if i >= k { assert l[k..][i - k] == l[i]; }
    }
  }

  // ---- version 2: going on with the first node that did not fit ----

  function NextToken(nodes: seq<NodeVersion>, p: Params): Params
    requires Page(nodes, p).1.Some?
  {
    p.(token := Page(nodes, p).1.value.id)
  }

  lemma OidsIdentify(nodes: seq<NodeVersion>, p: Params, k: nat)
    requires Store(nodes, p.prefix) && k < |Full(nodes, p)|
    ensures FindOid(Full(nodes, p), Full(nodes, p)[k].oid) == k && Full(nodes, p)[k].oid != ""
  {
    hide NameOf, Lt, Sort;
    var l := Full(nodes, p);
    SortOrders(nodes, p.prefix);
    AfterSound(Sort(F.NodePath, nodes), p, p.marker, {});
    var i := FindOid(l, l[k].oid);
    assert l[k] in l && l[i] in l;
    assert l[i] == l[k];
    if i < k { LtIrreflexive(NameOf(l[i], p)); }
    if k < i { LtIrreflexive(NameOf(l[i], p)); }
  }

  lemma {:induction false} WithoutCut(s: seq<NodeVersion>, p: Params, name: string, i: nat) returns (k: nat)
    requires i < |Without(s, p, name)|
    ensures k < |s| && s[k] == Without(s, p, name)[i] && Without(s[k + 1..], p, name) == Without(s, p, name)[i + 1..]
  {
    hide NameOf;
    if NameOf(s[0], p) == name {
      k := WithoutCut(s[1..], p, name, i);
      assert s[1..][k + 1..] == s[k + 2..];
      k := k + 1;
    } else if i == 0 {
      k := 0;
    } else {
      k := WithoutCut(s[1..], p, name, i - 1);
      assert s[1..][k + 1..] == s[k + 2..];
      k := k + 1;
    }
  }

  lemma {:induction false} WithoutSame(s: seq<NodeVersion>, p: Params, p': Params, name: string)
    requires p.prefix == p'.prefix && p.delimiter == p'.delimiter
    ensures Without(s, p, name) == Without(s, p', name)
  {
    if s != [] {
      assert NameOf(s[0], p) == NameOf(s[0], p');
      WithoutSame(s[1..], p, p', name);
    }
  }

  /** What is left to list with the token of the node at `k` of the listing. */
  lemma TokenAt(nodes: seq<NodeVersion>, p: Params, p': Params, k: nat)
    requires Store(nodes, p.prefix) && k < |Full(nodes, p)|
    requires p' == p.(token := Full(nodes, p)[k].oid)
    ensures p'.token != "" && KnownToken(nodes, p')
    ensures Remaining(nodes, p') == [Full(nodes, p)[k]] + Without(Full(nodes, p)[k + 1..], p, TOKEN_MET)
  {
    hide Sort, NameOf;
    SameNames(Sort(F.NodePath, nodes), p, p', p.marker);
    assert Full(nodes, p') == Full(nodes, p);
    OidsIdentify(nodes, p, k);
    WithoutSame(Full(nodes, p)[k + 1..], p, p', TOKEN_MET);
  }

  /** What is left to list with the token that follows. */
  lemma NextTokenRemains(nodes: seq<NodeVersion>, p: Params)
    requires ValidRequest(nodes, p) && Page(nodes, p).1.Some?
    ensures p.maxKeys < |Remaining(nodes, p)|
    ensures ValidRequest(nodes, NextToken(nodes, p)) && NextToken(nodes, p).token != ""
    ensures Remaining(nodes, NextToken(nodes, p)) ==
            if p.token == "" then
              [Full(nodes, p)[p.maxKeys]] + Without(Full(nodes, p)[p.maxKeys + 1..], p, TOKEN_MET)
            else Remaining(nodes, p)[p.maxKeys..]
  {
    hide Page, Sort, NameOf, Store, Full, Infos, After, Without;
    PageIs(nodes, p);
    var l, r, p' := Full(nodes, p), Remaining(nodes, p), NextToken(nodes, p);
    assert p'.token == r[p.maxKeys].oid;
    if p.token == "" {
      TokenAt(nodes, p, p', p.maxKeys);
    } else {
      LaterTokenRemains(nodes, p, p');
    }
  }

  /** Going on with a token from a page that was asked for with one. */
  lemma LaterTokenRemains(nodes: seq<NodeVersion>, p: Params, p': Params)
    requires ValidRequest(nodes, p) && p.token != "" && p.maxKeys < |Remaining(nodes, p)|
    requires p' == p.(token := Remaining(nodes, p)[p.maxKeys].oid)
    ensures p'.token != "" && KnownToken(nodes, p') && Remaining(nodes, p') == Remaining(nodes, p)[p.maxKeys..]
  {
    hide Sort, NameOf, Store, Full, Infos, After, Without;
    var j := CutAt(Full(nodes, p), p, TOKEN_MET, FindOid(Full(nodes, p), p.token), p.maxKeys);
    TokenAt(nodes, p, p', j);
  }

  /** Of a node and those behind it that have another name, the ones from a later one on. */
  lemma CutAt(l: seq<NodeVersion>, p: Params, name: string, k: nat, m: nat) returns (j: nat)
    requires k < |l| && 0 < m < |[l[k]] + Without(l[k + 1..], p, name)|
    ensures j < |l| && ([l[k]] + Without(l[k + 1..], p, name))[m] == l[j]
    ensures ([l[k]] + Without(l[k + 1..], p, name))[m..] == [l[j]] + Without(l[j + 1..], p, name)
  {
    hide Without;
    var i := WithoutCut(l[k + 1..], p, name, m - 1);
    Behind(l[k], Without(l[k + 1..], p, name), m);
    Further(l, k + 1, i);
    j := k + 1 + i;
  }

  lemma Behind<T>(x: T, w: seq<T>, m: nat)
    requires 0 < m <= |w|
    ensures ([x] + w)[m] == w[m - 1] && ([x] + w)[m..] == [w[m - 1]] + w[m..]
  {
  }

  lemma Further<T>(l: seq<T>, k: nat, i: nat)
    requires k + i < |l|
    ensures l[k..][i] == l[k + i] && l[k..][i + 1..] == l[k + i + 1..]
  {
  }

  /** The pages a client gets that follows the tokens until a page is not truncated. */
  function FollowV2(nodes: seq<NodeVersion>, p: Params): seq<seq<ListedInfo>>
    requires ValidRequest(nodes, p)
    decreases |Remaining(nodes, p)|
  {
    var (objects, next) := Page(nodes, p);
    if next.None? then [objects]
    else
      NextTokenRemains(nodes, p);
      [objects] + FollowV2(nodes, NextToken(nodes, p))
  }

  lemma {:induction false} FlatV2(nodes: seq<NodeVersion>, p: Params)
    requires ValidRequest(nodes, p) && p.token != ""
    ensures Flat(FollowV2(nodes, p)) == Infos(Remaining(nodes, p), p)
    decreases |Remaining(nodes, p)|
  {
    hide Page, Store, Remaining, KnownToken, Infos;
    var l := Remaining(nodes, p);
    var head := Page(nodes, p).0;
    PageIs(nodes, p);
    if Page(nodes, p).1.None? {
      assert Flat([head]) == head + [];
    } else {
      NextTokenRemains(nodes, p);
      var p' := NextToken(nodes, p);
      assert |Remaining(nodes, p')| == |l| - p.maxKeys < |l| by { Positive(nodes, p); }
      FlatV2(nodes, p');
      assert FollowV2(nodes, p) == [head] + FollowV2(nodes, p');
      FlatCons(head, FollowV2(nodes, p'));
      SplitInfos(l, p, p', p.maxKeys);
    }
  }

  lemma Positive(nodes: seq<NodeVersion>, p: Params)
    requires ValidRequest(nodes, p)
    ensures p.maxKeys > 0
  {
  }

  // ---- the listing ----

  /** The first nodes of the names make up the listing of the bucket. */
  lemma FullIsListing(nodes: seq<NodeVersion>, p: Params)
    requires Store(nodes, p.prefix) && |p.delimiter| <= 1
    ensures IsListing(NodeNames(Full(nodes, p), p), nodes, p)
  {
    hide Lt, Sort, ListedName, RollUp, After, NameOf, Listed, Store;
    var sorted, l := Sort(F.NodePath, nodes), Full(nodes, p);
    var names := NodeNames(l, p);
    SortOrders(nodes, p.prefix);
    AfterSound(sorted, p, p.marker, {});
    forall name ensures name in names <==> Listed(name, nodes, p) {
      NamedIsListed(nodes, p, name);
    }
  }

  lemma NamedIsListed(nodes: seq<NodeVersion>, p: Params, name: string)
    requires Store(nodes, p.prefix) && |p.delimiter| <= 1
    ensures name in NodeNames(Full(nodes, p), p) <==> Listed(name, nodes, p)
  {
    hide Lt, Sort, ListedName, RollUp, After, Ordered;
    var sorted, l := Sort(F.NodePath, nodes), Full(nodes, p);
    var names := NodeNames(l, p);
    SortOrders(nodes, p.prefix);
    if name in names {
      AfterSound(sorted, p, p.marker, {});
      var i :| 0 <= i < |names| && names[i] == name;
      assert l[i] in l;
      NameIsRollUp(l[i].filePath, p.prefix, p.delimiter);
    }
    if Listed(name, nodes, p) {
      var n :| n in nodes && !n.isDeleteMarker && RollUp(n.filePath, p.prefix, p.delimiter) == name;
      NameIsRollUp(n.filePath, p.prefix, p.delimiter);
      AfterComplete(sorted, p, p.marker, {}, n);
      var m :| m in l && NameOf(m, p) == name;
      var i :| 0 <= i < |l| && l[i] == m;
      assert names[i] == name;
    }
  }

  // ---- directories and objects ----

  /** A key with the delimiter somewhere behind the prefix. */
  ghost predicate Below(key: string, p: Params)
  {
    p.delimiter != "" && exists i: nat :: |p.prefix| <= i && OccursAt(key, p.delimiter, i)
  }

  /** A directory to be listed: what live keys with the delimiter are rolled up to. */
  ghost predicate IsDirectory(name: string, nodes: seq<NodeVersion>, p: Params)
    requires Store(nodes, p.prefix)
  {
    Lt(p.marker, name) &&
    exists n :: n in nodes && !n.isDeleteMarker && Below(n.filePath, p) &&
      RollUp(n.filePath, p.prefix, p.delimiter) == name
  }

  /** An object to be listed: a live key without the delimiter, with its own object id. */
  ghost predicate IsObject(o: ListedInfo, nodes: seq<NodeVersion>, p: Params)
  {
    Lt(p.marker, o.name) && !o.isDir &&
    exists n :: n in nodes && !n.isDeleteMarker && !Below(n.filePath, p) && n.filePath == o.name && n.oid == o.id
  }

  /** Exactly the directories and exactly the objects of a bucket, each once and in order. */
  ghost predicate IsContents(prefixes: seq<string>, objects: seq<ListedInfo>, nodes: seq<NodeVersion>, p: Params)
    requires Store(nodes, p.prefix)
  {
    && (forall i, j :: 0 <= i < j < |prefixes| ==> Lt(prefixes[i], prefixes[j]))
    && (forall name :: name in prefixes <==> IsDirectory(name, nodes, p))
    && Increasing(InfoName, objects)
    && (forall o :: o in objects <==> IsObject(o, nodes, p))
  }

  /** Directories are the keys with the delimiter, and so are their names. */
  lemma DirIsBelow(n: NodeVersion, p: Params)
    requires HasPrefix(n.filePath, p.prefix) && |p.delimiter| <= 1
    ensures InfoOf(n, p).isDir <==> Below(n.filePath, p)
    ensures Below(n.filePath, p) <==> Below(NameOf(n, p), p)
    ensures !Below(n.filePath, p) ==> NameOf(n, p) == n.filePath
    ensures InfoOf(n, p).id == n.oid
  {
    hide IndexFrom, Below;
    if p.delimiter == "" {
      NoneBelow(n.filePath, p);
      NoneBelow(NameOf(n, p), p);
    } else {
      var tail := n.filePath[|p.prefix|..];
      assert n.filePath == p.prefix + tail;
      IndexAfterPrefix(p.prefix, tail, p.delimiter, 0);
      IndexIsBelow(n.filePath, p);
      if Index(tail, p.delimiter) >= 0 { DirectoryIsBelow(tail, p, Index(tail, p.delimiter)); }
    }
  }

  lemma NoneBelow(key: string, p: Params)
    requires p.delimiter == ""
    ensures !Below(key, p)
  {
  }

  lemma DirectoryIsBelow(tail: string, p: Params, index: nat)
    requires |p.delimiter| == 1 && OccursAt(tail, p.delimiter, index)
    ensures Below(p.prefix + tail[..index + 1], p)
  {
    var name := p.prefix + tail[..index + 1];
    assert name[|p.prefix| + index..|p.prefix| + index + 1] == tail[index..index + 1];
    assert OccursAt(name, p.delimiter, |p.prefix| + index);
  }

  lemma IndexIsBelow(key: string, p: Params)
    requires HasPrefix(key, p.prefix) && p.delimiter != ""
    ensures Below(key, p) <==> IndexFrom(key, p.delimiter, |p.prefix|) >= 0
  {
    var i := IndexFrom(key, p.delimiter, |p.prefix|);
    if i >= 0 { assert OccursAt(key, p.delimiter, i); }
  }

  /** The entries of the whole listing are its directories and objects. */
  lemma FullIsContents(nodes: seq<NodeVersion>, p: Params)
    requires Store(nodes, p.prefix) && |p.delimiter| <= 1
    ensures var all := Infos(Full(nodes, p), p); IsContents(Names(Only(all, true)), Only(all, false), nodes, p)
  {
    hide Lt, Sort, After, NameOf, Store, Full, Below, Infos, Only, Names, IsDirectory, IsObject;
    var all := Infos(Full(nodes, p), p);
    var dirs := Only(all, true);
    FullIncreases(nodes, p);
    InfosIncrease(Full(nodes, p), p);
    TriageKeepsOrder(all, true);
    TriageKeepsOrder(all, false);
    forall i, j | 0 <= i < j < |dirs| ensures Lt(Names(dirs)[i], Names(dirs)[j]) {
      assert Lt(InfoName(dirs[i]), InfoName(dirs[j]));
    }
    forall name ensures name in Names(dirs) <==> IsDirectory(name, nodes, p) { DirectoryListed(nodes, p, name); }
    forall o ensures o in Only(all, false) <==> IsObject(o, nodes, p) { ObjectListed(nodes, p, o); }
  }

  lemma InFull(nodes: seq<NodeVersion>, p: Params, n: NodeVersion)
    requires Store(nodes, p.prefix) && |p.delimiter| <= 1 && n in Full(nodes, p)
    ensures n in nodes && !n.isDeleteMarker && Lt(p.marker, NameOf(n, p)) && HasPrefix(n.filePath, p.prefix)
  {
    hide Lt, NameOf, Sort;
    SortOrders(nodes, p.prefix);
    AfterSound(Sort(F.NodePath, nodes), p, p.marker, {});
  }

  /** A live key behind the marker is listed under its name. */
  lemma NamedInFull(nodes: seq<NodeVersion>, p: Params, n: NodeVersion) returns (m: NodeVersion)
    requires Store(nodes, p.prefix) && |p.delimiter| <= 1
    requires n in nodes && !n.isDeleteMarker && Lt(p.marker, NameOf(n, p))
    ensures m in Full(nodes, p) && NameOf(m, p) == NameOf(n, p)
  {
    hide Lt, NameOf, Sort;
    SortOrders(nodes, p.prefix);
    AfterComplete(Sort(F.NodePath, nodes), p, p.marker, {}, n);
    m :| m in Full(nodes, p) && NameOf(m, p) == NameOf(n, p);
  }

  lemma InInfos(l: seq<NodeVersion>, p: Params, o: ListedInfo)
    ensures o in Infos(l, p) <==> exists n :: n in l && InfoOf(n, p) == o
  {
    if o in Infos(l, p) {
      var i :| 0 <= i < |l| && Infos(l, p)[i] == o;
      assert l[i] in l;
    }
    if exists n :: n in l && InfoOf(n, p) == o {
      var n :| n in l && InfoOf(n, p) == o;
      var i :| 0 <= i < |l| && l[i] == n;
      assert Infos(l, p)[i] == o;
    }
  }

  lemma InNames(infos: seq<ListedInfo>, name: string)
    ensures name in Names(infos) <==> exists o :: o in infos && o.name == name
  {
    if name in Names(infos) {
      var i :| 0 <= i < |infos| && Names(infos)[i] == name;
      assert infos[i] in infos;
    }
    if exists o :: o in infos && o.name == name {
      var o :| o in infos && o.name == name;
      var i :| 0 <= i < |infos| && infos[i] == o;
      assert Names(infos)[i] == name;
    }
  }

  lemma DirectoryListed(nodes: seq<NodeVersion>, p: Params, name: string)
    requires Store(nodes, p.prefix) && |p.delimiter| <= 1
    ensures name in Names(Only(Infos(Full(nodes, p), p), true)) <==> IsDirectory(name, nodes, p)
  {
    hide Lt, NameOf, Store, Full, Below, Infos, Names, InfoOf, RollUp, ListedName;
    var l := Full(nodes, p);
    Prefixed(nodes, p);
    InNames(Only(Infos(l, p), true), name);
    if name in Names(Only(Infos(l, p), true)) {
      var o :| o in Only(Infos(l, p), true) && o.name == name;
      InInfos(l, p, o);
      var n :| n in l && InfoOf(n, p) == o;
      InFull(nodes, p, n);
      DirIsBelow(n, p);
      NameIsInfo(n, p);
      RolledUp(n, p);
    }
    if IsDirectory(name, nodes, p) {
      var n :| n in nodes && !n.isDeleteMarker && Below(n.filePath, p) &&
        RollUp(n.filePath, p.prefix, p.delimiter) == name;
      RolledUp(n, p);
      var m := NamedInFull(nodes, p, n);
      InFull(nodes, p, m);
      DirIsBelow(n, p);
      DirIsBelow(m, p);
      NameIsInfo(m, p);
      InInfos(l, p, InfoOf(m, p));
    }
  }

  lemma RolledUp(n: NodeVersion, p: Params)
    requires HasPrefix(n.filePath, p.prefix) && |p.delimiter| <= 1
    ensures NameOf(n, p) == RollUp(n.filePath, p.prefix, p.delimiter)
  {
    hide RollUp, ListedName;
    NameIsRollUp(n.filePath, p.prefix, p.delimiter);
  }

  lemma Prefixed(nodes: seq<NodeVersion>, p: Params)
    requires Store(nodes, p.prefix)
    ensures forall n :: n in nodes ==> HasPrefix(n.filePath, p.prefix)
  {
  }

  lemma OnePerPath(nodes: seq<NodeVersion>, prefix: string, n: NodeVersion, m: NodeVersion)
    requires Store(nodes, prefix) && n in nodes && m in nodes && n.filePath == m.filePath
    ensures n == m
  {
    var i :| 0 <= i < |nodes| && nodes[i] == n;
    var j :| 0 <= j < |nodes| && nodes[j] == m;
    SameIndex(nodes, prefix, i, j);
  }

  lemma SameIndex(nodes: seq<NodeVersion>, prefix: string, i: nat, j: nat)
    requires Store(nodes, prefix) && i < |nodes| && j < |nodes|
    ensures nodes[i].filePath == nodes[j].filePath ==> i == j
  {
  }

  lemma ObjectListed(nodes: seq<NodeVersion>, p: Params, o: ListedInfo)
    requires Store(nodes, p.prefix) && |p.delimiter| <= 1
    ensures o in Only(Infos(Full(nodes, p), p), false) <==> IsObject(o, nodes, p)
  {
    hide Lt, NameOf, Store, Full, Below, Infos, InfoOf;
    var l := Full(nodes, p);
    InInfos(l, p, o);
    if o in Only(Infos(l, p), false) {
      var n :| n in l && InfoOf(n, p) == o;
      InFull(nodes, p, n);
      DirIsBelow(n, p);
      NameIsInfo(n, p);
    }
    if IsObject(o, nodes, p) {
      var n :| n in nodes && !n.isDeleteMarker && !Below(n.filePath, p) && n.filePath == o.name && n.oid == o.id;
      Prefixed(nodes, p);
      DirIsBelow(n, p);
      var m := NamedInFull(nodes, p, n);
      InFull(nodes, p, m);
      DirIsBelow(m, p);
      NameIsInfo(m, p);
      OnePerPath(nodes, p.prefix, n, m);
      assert InfoOf(m, p) == o;
    }
  }

  /** What a single page has: directories and objects of the bucket, the ones named as such. */
  lemma PageContents(nodes: seq<NodeVersion>, p: Params)
    requires ValidRequest(nodes, p)
    ensures forall o :: o in Page(nodes, p).0 ==>
              (o.isDir <==> IsDirectory(o.name, nodes, p)) && (!o.isDir <==> IsObject(o, nodes, p))
    ensures forall o :: o in Page(nodes, p).0 ==> (o.isDir <==> Below(o.name, p))
  {
    hide Page, Store, Full, IsDirectory, IsObject, Below, Infos, Without, Only, Names;
    PageIs(nodes, p);
    forall o | o in Page(nodes, p).0
      ensures (o.isDir <==> IsDirectory(o.name, nodes, p)) && (!o.isDir <==> IsObject(o, nodes, p))
      ensures o.isDir <==> Below(o.name, p)
    {
      var i :| 0 <= i < |Page(nodes, p).0| && Page(nodes, p).0[i] == o;
      var n := Take(Remaining(nodes, p), p.maxKeys)[i];
      RemainsInFull(nodes, p, n);
      EntryIs(nodes, p, n);
    }
  }

  lemma RemainsInFull(nodes: seq<NodeVersion>, p: Params, n: NodeVersion)
    requires KnownToken(nodes, p) && n in Remaining(nodes, p)
    ensures n in Full(nodes, p)
  {
    hide NameOf, Full, Without;
    if p.token != "" {
      WithoutHas(Full(nodes, p)[FindOid(Full(nodes, p), p.token) + 1..], p, TOKEN_MET);
    }
  }

  lemma EntryIs(nodes: seq<NodeVersion>, p: Params, n: NodeVersion)
    requires Store(nodes, p.prefix) && |p.delimiter| <= 1 && n in Full(nodes, p)
    ensures var o := InfoOf(n, p);
            && (o.isDir <==> IsDirectory(o.name, nodes, p)) && (!o.isDir <==> IsObject(o, nodes, p))
            && (o.isDir <==> Below(o.name, p))
  {
    hide Lt, NameOf, Store, Full, Below, Infos, InfoOf, RollUp, Names;
    var o := InfoOf(n, p);
    Prefixed(nodes, p);
    InFull(nodes, p, n);
    DirIsBelow(n, p);
    NameIsInfo(n, p);
    RolledUp(n, p);
    if IsDirectory(o.name, nodes, p) {
      var m :| m in nodes && !m.isDeleteMarker && Below(m.filePath, p) &&
        RollUp(m.filePath, p.prefix, p.delimiter) == o.name;
      DirIsBelow(m, p);
      RolledUp(m, p);
    }
  }

  /** Ascending entries that are the contents of a bucket have the names of its listing. */
  lemma ContentsAreListing(all: seq<ListedInfo>, nodes: seq<NodeVersion>, p: Params)
    requires Store(nodes, p.prefix) && |p.delimiter| <= 1 && Increasing(InfoName, all)
    requires IsContents(Names(Only(all, true)), Only(all, false), nodes, p)
    ensures IsListing(Names(all), nodes, p)
  {
    hide Lt, NameOf, Store, Below, Names, RollUp, IsDirectory, IsObject, Listed;
    forall i, j | 0 <= i < j < |all| ensures Lt(Names(all)[i], Names(all)[j]) {
      assert Lt(InfoName(all[i]), InfoName(all[j]));
    }
    forall name ensures name in Names(all) <==> Listed(name, nodes, p) {
      InNames(all, name);
      InNames(Only(all, true), name);
      ListedIsEither(nodes, p, name);
      if name in Names(all) {
        var o :| o in all && o.name == name;
        assert o in Only(all, o.isDir);
      }
    }
  }

  lemma ListedIsEither(nodes: seq<NodeVersion>, p: Params, name: string)
    requires Store(nodes, p.prefix) && |p.delimiter| <= 1
    ensures Listed(name, nodes, p) <==>
            IsDirectory(name, nodes, p) || exists o: ListedInfo :: o.name == name && IsObject(o, nodes, p)
  {
    hide Lt, NameOf, Store, Below, RollUp;
    Prefixed(nodes, p);
    forall n | n in nodes
      ensures !Below(n.filePath, p) ==> RollUp(n.filePath, p.prefix, p.delimiter) == n.filePath
    {
      DirIsBelow(n, p);
      RolledUp(n, p);
    }
    if Listed(name, nodes, p) && !IsDirectory(name, nodes, p) {
      var n :| n in nodes && !n.isDeleteMarker && RollUp(n.filePath, p.prefix, p.delimiter) == name;
      assert IsObject(ListedInfo(n.oid, name, false), nodes, p);
    }
  }

  /** Version 1 lists a bucket completely, whatever the page size. */
  lemma PagesV1AreTheListing(nodes: seq<NodeVersion>, p: Params)
    requires ValidRequest(nodes, p) && p.token == ""
    ensures var all := Flat(FollowV1(nodes, p));
            IsListing(Names(all), nodes, p) && IsContents(Names(Only(all, true)), Only(all, false), nodes, p)
  {
    hide FollowV1, IsListing, IsContents, Infos, Full, Store;
    FlatV1(nodes, p);
    FullIsListing(nodes, p);
    NamesOfInfos(Full(nodes, p), p);
    FullIsContents(nodes, p);
  }

  /**
   Version 2 lists a bucket completely unless a listed name equals the mark that the met token leaves
   behind and comes later than the start of the second page.
   */
  lemma PagesV2AreTheListing(nodes: seq<NodeVersion>, p: Params, listing: seq<string>)
    requires ValidRequest(nodes, p) && p.token == ""
    requires IsListing(listing, nodes, p)
    ensures var all := Flat(FollowV2(nodes, p));
            && (Names(all) == listing <==> forall i :: p.maxKeys < i < |listing| ==> listing[i] != TOKEN_MET)
            && (Names(all) == listing <==> IsContents(Names(Only(all, true)), Only(all, false), nodes, p))
  {
    hide IsListing, IsContents, Store, Full, Infos, FollowV2, Only;
    var l, all := Full(nodes, p), Flat(FollowV2(nodes, p));
    FullIsListing(nodes, p);
    ListingIsUnique(listing, NodeNames(l, p), nodes, p);
    V2Pages(nodes, p);
    NamesOfInfos(l, p);
    FullIsContents(nodes, p);
    V2Increases(nodes, p);
    if IsContents(Names(Only(all, true)), Only(all, false), nodes, p) {
      ContentsAreListing(all, nodes, p);
      ListingIsUnique(listing, Names(all), nodes, p);
    }
  }

  /** What all pages have together: everything, or less. */
  lemma V2Pages(nodes: seq<NodeVersion>, p: Params)
    requires ValidRequest(nodes, p) && p.token == ""
    ensures var l, all := Full(nodes, p), Flat(FollowV2(nodes, p));
            && (Names(all) == NodeNames(l, p) <==> all == Infos(l, p))
            && (all == Infos(l, p) <==> forall i :: p.maxKeys < i < |l| ==> NodeNames(l, p)[i] != TOKEN_MET)
  {
    hide Page, NameOf, Sort, Store, Full, Remaining, NodeNames, Infos, Without;
    var l := Full(nodes, p);
    NoToken(nodes, p);
    PageIs(nodes, p);
    NamesOfInfos(l, p);
    var head := Page(nodes, p).0;
    if Page(nodes, p).1.None? {
      assert Flat([head]) == head + [];
    } else {
      NextTokenRemains(nodes, p);
      var p' := NextToken(nodes, p);
      FlatV2(nodes, p');
      assert FollowV2(nodes, p) == [head] + FollowV2(nodes, p');
      FlatCons(head, FollowV2(nodes, p'));
      LostBehind(nodes, p, p', p.maxKeys);
    }
  }

  /** Names of all pages ascend. */
  lemma V2Increases(nodes: seq<NodeVersion>, p: Params)
    requires ValidRequest(nodes, p) && p.token == ""
    ensures Increasing(InfoName, Flat(FollowV2(nodes, p)))
  {
    hide Page, NameOf, Sort, Store, Full, Remaining, Infos, Without, Lt;
    var l := Full(nodes, p);
    NoToken(nodes, p);
    PageIs(nodes, p);
    FullIncreases(nodes, p);
    var head := Page(nodes, p).0;
    if Page(nodes, p).1.None? {
      assert Flat([head]) == head + [];
      InfosIncrease(l, p);
    } else {
      NextTokenRemains(nodes, p);
      var p' := NextToken(nodes, p);
      FlatV2(nodes, p');
      assert FollowV2(nodes, p) == [head] + FollowV2(nodes, p');
      FlatCons(head, FollowV2(nodes, p'));
      LessIncreases(l, p, p', p.maxKeys);
    }
  }

  lemma LessIncreases(l: seq<NodeVersion>, p: Params, p': Params, k: nat)
    requires k < |l| && p.prefix == p'.prefix && p.delimiter == p'.delimiter && NamesAscend(l, p)
    ensures Increasing(InfoName, Infos(l[..k], p) + Infos([l[k]] + Without(l[k + 1..], p, TOKEN_MET), p'))
  {
    hide NameOf, Lt, Without, Infos, Increasing;
    var w := [l[k]] + Without(l[k + 1..], p, TOKEN_MET);
    var m := l[..k] + w;
    BehindAscends(l, p, k, TOKEN_MET);
    WithoutHas(l[k + 1..], p, TOKEN_MET);
    JoinAscends(l, p, k, w);
    InfosIncrease(m, p);
    assert m[..k] == l[..k] && m[k..] == w;
    SplitInfos(m, p, p', k);
  }

  lemma JoinAscends(l: seq<NodeVersion>, p: Params, k: nat, w: seq<NodeVersion>)
    requires k < |l| && NamesAscend(l, p) && NamesAscend(w, p)
    requires forall n :: n in w ==> n == l[k] || n in l[k + 1..]
    ensures NamesAscend(l[..k] + w, p)
  {
    hide NameOf, Lt;
    forall i, j | 0 <= i < k && 0 <= j < |w| ensures Lt(NameOf(l[i], p), NameOf(w[j], p)) {
      if w[j] in l[k + 1..] {
        var x :| 0 <= x < |l[k + 1..]| && l[k + 1..][x] == w[j];
        assert l[k + 1 + x] == w[j];
      } else {
        assert w[j] in w && w[j] == l[k];
      }
    }
  }

  /** Three keys, the last one named like the mark, on pages of one name: the last one is not listed. */
  lemma TokenMarkExample()
    ensures var nodes, p := MarkedBucket(), Params("", "", 1, "", "");
            && ValidRequest(nodes, p) && p.token == "" && IsListing(["1", "2", TOKEN_MET], nodes, p)
            && Names(Flat(FollowV2(nodes, p))) != ["1", "2", TOKEN_MET]
  {
    var nodes, p, names := MarkedBucket(), Params("", "", 1, "", ""), ["1", "2", TOKEN_MET];
    MarkedStore();
    MarkedListing();
    hide Store, IsListing, FollowV2;
    PagesV2AreTheListing(nodes, p, names);
    assert names[2] == TOKEN_MET;
  }

  lemma MarkedStore()
    ensures Store(MarkedBucket(), "")
  {
    var nodes := MarkedBucket();
    assert nodes[0].filePath == "1" && nodes[1].filePath == "2" && |nodes[2].filePath| > 1;
  }

  lemma MarkedListing()
    requires Store(MarkedBucket(), "")
    ensures IsListing(["1", "2", TOKEN_MET], MarkedBucket(), Params("", "", 1, "", ""))
  {
    hide Store;
    var nodes, p, names := MarkedBucket(), Params("", "", 1, "", ""), ["1", "2", TOKEN_MET];
    forall i, j | 0 <= i < j < 3 ensures Lt(names[i], names[j]) {
      assert names[0][0] < names[1][0] < names[2][0];
    }
    hide Lt;
    forall name ensures name in names <==> Listed(name, nodes, p) {
      MarkedListed(name);
    }
  }

  lemma MarkedListed(name: string)
    requires Store(MarkedBucket(), "")
    ensures name in ["1", "2", TOKEN_MET] <==> Listed(name, MarkedBucket(), Params("", "", 1, "", ""))
  {
    hide Store;
    var nodes, names := MarkedBucket(), ["1", "2", TOKEN_MET];
    assert nodes[0].filePath == names[0] && nodes[1].filePath == names[1] && nodes[2].filePath == names[2];
    if name in names {
      LtEmpty(name);
      var i :| 0 <= i < 3 && names[i] == name;
      assert nodes[i] in nodes && RollUp(nodes[i].filePath, "", "") == name;
    }
  }

  function MarkedBucket(): seq<NodeVersion>
  {
    [F.NodeVersion(0, 0, "a", 0, "1", false, false), F.NodeVersion(1, 0, "b", 1, "2", false, false),
     F.NodeVersion(2, 0, "c", 2, TOKEN_MET, false, false)]
  }

  lemma LostBehind(nodes: seq<NodeVersion>, p: Params, p': Params, k: nat)
    requires p.prefix == p'.prefix && p.delimiter == p'.delimiter && k < |Full(nodes, p)|
    ensures var l := Full(nodes, p);
            var all := Infos(l[..k], p) + Infos([l[k]] + Without(l[k + 1..], p, TOKEN_MET), p');
            && (Names(all) == NodeNames(l, p) <==> all == Infos(l, p))
            && (all == Infos(l, p) <==> forall i :: k < i < |l| ==> NodeNames(l, p)[i] != TOKEN_MET)
  {
    hide ListedName, NameOf, Sort, Lt, Full, Without, NodeNames, After, Infos;
    var l := Full(nodes, p);
    var s := l[k + 1..];
    var w := Without(s, p, TOKEN_MET);
    FullIncreases(nodes, p);
    forall i, j | 0 <= i < j < |s| ensures Lt(NameOf(s[i], p), NameOf(s[j], p)) {
      assert s[i] == l[k + 1 + i] && s[j] == l[k + 1 + j];
    }
    WithoutSound(s, p, TOKEN_MET);
    NoMark(l, p, k);
    SplitOrShorter(l, p, p', k, w);
  }

  lemma SplitOrShorter(l: seq<NodeVersion>, p: Params, p': Params, k: nat, w: seq<NodeVersion>)
    requires p.prefix == p'.prefix && p.delimiter == p'.delimiter && k < |l|
    requires |w| <= |l[k + 1..]| && (|w| == |l[k + 1..]| ==> w == l[k + 1..])
    ensures var all := Infos(l[..k], p) + Infos([l[k]] + w, p');
            && (Names(all) == NodeNames(l, p) <==> |w| == |l[k + 1..]|)
            && (all == Infos(l, p) <==> |w| == |l[k + 1..]|)
  {
    hide NodeNames, Infos;
    if |w| == |l[k + 1..]| {
      assert [l[k]] + w == l[k..];
      SplitInfos(l, p, p', k);
      NamesOfInfos(l, p);
    } else {
      assert |Infos(l[..k], p) + Infos([l[k]] + w, p')| < |l|;
    }
  }

  lemma NoMark(l: seq<NodeVersion>, p: Params, k: nat)
    requires k < |l|
    ensures (forall n :: n in l[k + 1..] ==> NameOf(n, p) != TOKEN_MET) <==>
            (forall i :: k < i < |l| ==> NodeNames(l, p)[i] != TOKEN_MET)
  {
    hide NameOf;
    var s := l[k + 1..];
    if forall n :: n in s ==> NameOf(n, p) != TOKEN_MET {
      forall i | k < i < |l| ensures NodeNames(l, p)[i] != TOKEN_MET {
        assert l[i] == s[i - k - 1];
        assert l[i] in s;
      }
    } else {
      var n :| n in s && NameOf(n, p) == TOKEN_MET;
      var i :| 0 <= i < |s| && s[i] == n;
      assert l[k + 1 + i] == n;
      assert NodeNames(l, p)[k + 1 + i] == TOKEN_MET;
    }
  }

  lemma FullIncreases(nodes: seq<NodeVersion>, p: Params)
    ensures var l := Full(nodes, p); forall i, j :: 0 <= i < j < |l| ==> Lt(NameOf(l[i], p), NameOf(l[j], p))
  {
    hide ListedName, Sort, Lt;
    AfterSound(Sort(F.NodePath, nodes), p, p.marker, {});
  }

  ghost predicate FitsOnePage(nodes: seq<NodeVersion>, p: Params, prefix: string, delimiter: string)
  {
    Store(nodes, prefix) && p.prefix == prefix && p.delimiter == delimiter && p.token == "" && |nodes| < p.maxKeys
  }

  /**
   A bucket that fits one page is listed as S3 prescribes, whatever it holds, exactly for delimiters of
   at most one character.
   */
  lemma OnePageIsTheListing(prefix: string, delimiter: string)
    ensures (forall nodes: seq<NodeVersion>, p: Params ::
               FitsOnePage(nodes, p, prefix, delimiter) ==> IsListing(Names(Page(nodes, p).0), nodes, p))
            <==> |delimiter| <= 1
  {
    if |delimiter| <= 1 {
      forall nodes: seq<NodeVersion>, p: Params | FitsOnePage(nodes, p, prefix, delimiter)
        ensures IsListing(Names(Page(nodes, p).0), nodes, p)
      {
        SingleFits(nodes, p);
      }
    } else {
      var key := prefix + delimiter;
      var nodes := [F.NodeVersion(0, 0, "oid", 0, key, false, false)];
      var p := Params(prefix, delimiter, 2, "", "");
      LongDelimiter(prefix, delimiter);
      assert FitsOnePage(nodes, p, prefix, delimiter);
      if IsListing(Names(Page(nodes, p).0), nodes, p) {
        assert nodes[0] in nodes;
        LtEmpty(key);
        assert Listed(key, nodes, p);
        assert key in Names(Page(nodes, p).0);
        SentNamesOnly(nodes, p, key);
        assert false;
      }
    }
  }

  lemma LtEmpty(s: string)
    requires s != ""
    ensures Lt("", s)
  {
  }

  lemma SingleFits(nodes: seq<NodeVersion>, p: Params)
    requires Store(nodes, p.prefix) && |p.delimiter| <= 1 && p.token == "" && |nodes| < p.maxKeys
    ensures IsListing(Names(Page(nodes, p).0), nodes, p)
  {
    hide Page, Sort, NameOf, IsListing, Store;
    FullIsListing(nodes, p);
    PageIs(nodes, p);
    PageNames(nodes, p);
    AfterLength(Sort(F.NodePath, nodes), p, p.marker);
    assert |multiset(Sort(F.NodePath, nodes))| == |multiset(nodes)|;
  }

  lemma {:induction false} AfterLength(nodes: seq<NodeVersion>, p: Params, last: string)
    ensures |After(nodes, p, last, {})| <= |nodes|
  {
    if nodes != [] {
      AfterLength(nodes[1..], p, last);
      AfterLength(nodes[1..], p, NameOf(nodes[0], p));
    }
  }

  /** A page of a bucket with a single key holds no other name. */
  lemma SentNamesOnly(nodes: seq<NodeVersion>, p: Params, name: string)
    requires |nodes| == 1 && p.maxKeys > 0 && NameOf(nodes[0], p) != name
    ensures name !in Names(Page(nodes, p).0)
  {
    hide NameOf, Lt;
    var sorted := Sort(F.NodePath, nodes);
    assert sorted == nodes;
    var sent := Sent(sorted, p, {}, p.maxKeys + 1);
    assert sent == [] || sent == nodes;
    var infos := Infos(sent, p);
    assert Sort(InfoName, infos) == infos;
    NameIsInfo(nodes[0], p);
  }
}
