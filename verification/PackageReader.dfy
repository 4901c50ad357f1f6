/**
 The reader that decrypts one run of packages out of a shared payload stream: the contract of
 the DARE library as the range reader relies on it.
 */
module PackageReaders {
  import opened Wrappers
  import opened Dare

  /** The encrypted payload of an object from `pos` up to `end`, consumed from the front. */
  class PayloadStream {
    const plain: seq<byte>
    const sizes: seq<nat>
    const end: nat
    var pos: nat

    constructor (plain: seq<byte>, sizes: seq<nat>, pos: nat, end: nat)
      requires |plain| == PlainStart(sizes, |sizes|)
      requires pos <= end <= EncStart(sizes, |sizes|)
      ensures this.plain == plain && this.sizes == sizes && this.pos == pos && this.end == end
      ensures Valid()
    {
      this.plain, this.sizes, this.pos, this.end := plain, sizes, pos, end;
    }

    ghost predicate Valid()
      reads this
    {
      pos <= end <= EncStart(sizes, |sizes|) && |plain| == PlainStart(sizes, |sizes|)
    }
  }

  /**
   What a reader is going to produce: the plaintext of part `t` from `x` on and an error beyond `cap`,
   or an error at once.
   */
  datatype View = Aligned(t: nat, x: nat, cap: nat) | Dead

  /** The outcome of a read: more may follow, the data ended, or decryption failed. */
  datatype Status = Fine | Ended | Broken

  /** The state of a reader that has opened `q` packages of part `t` against what its view promises. */
  ghost predicate Follows(sizes: seq<nat>, plain: seq<byte>, pos: nat, limit: nat, q: nat, pending: seq<byte>,
                          view: View)
    requires |plain| == PlainStart(sizes, |sizes|)
    ensures Follows(sizes, plain, pos, limit, q, pending, view) ==> view.Aligned? || pending == []
    ensures Follows(sizes, plain, pos, limit, q, pending, view) && view.Aligned? ==>
              view.x + |pending| <= view.cap <= |plain|
    ensures Follows(sizes, plain, pos, limit, q, pending, view) ==> |pending| <= BLOCK
  {
    match view
    case Dead =>
      pending == [] && pos <= limit && OpenPackage(sizes, pos, limit - pos, q).None?
    case Aligned(t, x, cap) =>
      && t < |sizes| && sizes[t] > 0 && pos <= limit
      && pos == EncStart(sizes, t) + Min(q * PACKAGE, EncSize(sizes[t]))
      && EncStart(sizes, t) <= limit
      && cap == PlainStart(sizes, t) + Reach(sizes[t], limit - EncStart(sizes, t))
      && x + |pending| == PlainStart(sizes, t) + Min(q * BLOCK, sizes[t]) <= cap <= |plain|
      && pending == plain[x..x + |pending|]
      && |pending| <= BLOCK
  }

  /** Inside one part: what the next package covers. */
  lemma NextPackage(size: nat, q: nat, rel: nat)
    requires q * BLOCK < size && q * PACKAGE <= rel
    ensures q * PACKAGE < EncSize(size)
    ensures q * BLOCK <= Reach(size, rel)
    ensures q * BLOCK < Reach(size, rel) ==> PackagePlainEnd(size, q) <= Reach(size, rel)
    ensures q * BLOCK < Reach(size, rel) <==> Min(PACKAGE, rel - q * PACKAGE) == PackageEncEnd(size, q) - q * PACKAGE
    ensures PackagePlainEnd(size, q) == Min((q + 1) * BLOCK, size)
    ensures PackageEncEnd(size, q) == Min((q + 1) * PACKAGE, EncSize(size))
  {
    var k, m := size / BLOCK, size % BLOCK;
    assert size == k * BLOCK + m;
    assert q <= k;
    if rel < EncSize(size) {
      PackagesBefore(size, rel);
      var r := rel / PACKAGE;
      assert r * PACKAGE <= rel < r * PACKAGE + PACKAGE;
    }
  }

  /** Opening a package that starts at `pos` depends only on whether exactly its bytes are taken. */
  lemma OpenInside(sizes: seq<nat>, t: nat, pos: nat, avail: nat, q: nat)
    requires t < |sizes| && q * PACKAGE < EncSize(sizes[t])
    requires pos == EncStart(sizes, t) + q * PACKAGE
    ensures OpenPackage(sizes, pos, avail, q) ==
            if Min(PACKAGE, avail) == PackageEncEnd(sizes[t], q) - q * PACKAGE
            then Some(Interval(PlainStart(sizes, t) + q * BLOCK, PlainStart(sizes, t) + PackagePlainEnd(sizes[t], q)))
            else None
  {
    EncPartOfUnique(sizes, pos, 0, t);
  }

  /** Past the last package of a part nothing with a later sequence number follows. */
  lemma OpenPast(sizes: seq<nat>, t: nat, pos: nat, avail: nat, q: nat)
    requires t < |sizes| && q > 0
    requires pos == EncStart(sizes, t + 1)
    ensures OpenPackage(sizes, pos, avail, q).None?
  {
    var i := EncPartOf(sizes, pos, 0);
    EncPartOfBeyond(sizes, pos, 0);
    if i <= t {
      StartsMonotone(sizes, i + 1, t + 1);
    } else {
      StartsMonotone(sizes, t + 1, i);
    }
  }

  /** Opening the next package succeeds exactly while the reader is short of its reach. */
  lemma OpenIff(sizes: seq<nat>, t: nat, pos: nat, limit: nat, q: nat, reach: nat)
    requires t < |sizes| && sizes[t] > 0
    requires pos == EncStart(sizes, t) + Min(q * PACKAGE, EncSize(sizes[t])) <= limit
    requires reach == Reach(sizes[t], limit - EncStart(sizes, t))
    requires Min(q * BLOCK, sizes[t]) <= reach
    ensures Min(q * BLOCK, sizes[t]) < reach ==>
              && q * BLOCK < sizes[t]
              && pos == EncStart(sizes, t) + q * PACKAGE
              && PackagePlainEnd(sizes[t], q) <= reach
              && Min(PACKAGE, limit - pos) == PackageEncEnd(sizes[t], q) - q * PACKAGE
              && OpenPackage(sizes, pos, limit - pos, q) ==
                 Some(Interval(PlainStart(sizes, t) + q * BLOCK, PlainStart(sizes, t) + PackagePlainEnd(sizes[t], q)))
    ensures Min(q * BLOCK, sizes[t]) == reach ==> OpenPackage(sizes, pos, limit - pos, q).None?
  {
    var size, start := sizes[t], EncStart(sizes, t);
    ReachInPart(size, limit - start);
    if q * BLOCK < size {
      BlocksBelow(size, q);
      hide EncSize, Reach, OpenPackage, PackagePlainEnd, PackageEncEnd;
      NextPackage(size, q, limit - start);
      OpenInside(sizes, t, pos, limit - pos, q);
    } else {
      BlocksAtLeast(size, q);
      hide EncSize, Reach, OpenPackage;
      assert EncStart(sizes, t + 1) == start + EncSize(size);
      OpenPast(sizes, t, pos, limit - pos, q);
    }
  }

  lemma BlocksBelow(size: nat, q: nat)
    requires q * BLOCK < size
    ensures q * PACKAGE < EncSize(size)
  {
    assert q <= size / BLOCK;
  }

  lemma BlocksAtLeast(size: nat, q: nat)
    requires q * BLOCK >= size
    ensures q * PACKAGE >= EncSize(size)
  {
    var k, m := size / BLOCK, size % BLOCK;
    assert size == k * BLOCK + m;
    if m > 0 { assert q >= k + 1; } else { assert q >= k; }
  }

  lemma EncPartOfBeyond(sizes: seq<nat>, pos: nat, i: nat)
    requires i <= |sizes|
    ensures EncPartOf(sizes, pos, i) < |sizes| ==> pos < EncStart(sizes, EncPartOf(sizes, pos, i) + 1)
    decreases |sizes| - i
  {
  }

  /** A successful opening yields the next stretch of plaintext. */
  lemma Opened(sizes: seq<nat>, plain: seq<byte>, pos: nat, limit: nat, q: nat, view: View)
    requires |plain| == PlainStart(sizes, |sizes|)
    requires Follows(sizes, plain, pos, limit, q, [], view) && pos <= limit
    ensures OpenPackage(sizes, pos, limit - pos, q).Some? <==> view.Aligned? && view.x < view.cap
    ensures OpenPackage(sizes, pos, limit - pos, q).Some? ==>
              && OpenPackage(sizes, pos, limit - pos, q).value ==
                 Interval(view.x, PlainStart(sizes, view.t) + Min((q + 1) * BLOCK, sizes[view.t]))
              && view.x < PlainStart(sizes, view.t) + Min((q + 1) * BLOCK, sizes[view.t]) <= view.cap
              && PlainStart(sizes, view.t) + Min((q + 1) * BLOCK, sizes[view.t]) - view.x ==
                 Min(BLOCK, view.cap - view.x)
              && pos + Min(PACKAGE, limit - pos) ==
                 EncStart(sizes, view.t) + Min((q + 1) * PACKAGE, EncSize(sizes[view.t]))
  {
    hide Reach, OpenPackage, EncSize, PlainStart, EncStart;
    if view.Aligned? {
      OpenIff(sizes, view.t, pos, limit, q, view.cap - PlainStart(sizes, view.t));
      ReachInPart(sizes[view.t], limit - EncStart(sizes, view.t));
    }
  }

  /** A successful opening keeps the promise of the view. */
  lemma AfterOpen(sizes: seq<nat>, plain: seq<byte>, pos: nat, limit: nat, q: nat, view: View, pos': nat,
                  pending: seq<byte>)
    requires |plain| == PlainStart(sizes, |sizes|)
    requires Follows(sizes, plain, pos, limit, q, [], view) && pos <= limit
    requires OpenPackage(sizes, pos, limit - pos, q).Some?
    requires pos' == pos + Min(PACKAGE, limit - pos)
    requires var payload := OpenPackage(sizes, pos, limit - pos, q).value;
             payload.lo <= payload.hi <= |plain| && pending == plain[payload.lo..payload.hi]
    ensures pending != [] && Follows(sizes, plain, pos', limit, q + 1, pending, view)
    ensures |pending| == Min(BLOCK, view.cap - view.x)
  {
    hide Reach, OpenPackage, EncSize, PlainStart, EncStart;
    Opened(sizes, plain, pos, limit, q, view);
    var payload := OpenPackage(sizes, pos, limit - pos, q).value;
    assert |pending| == payload.hi - payload.lo;
    assert payload.lo == view.x && payload.hi == view.x + |pending|;
  }

  /** Between the views `before` and `after` a reader has delivered `out`. */
  ghost predicate Delivered(plain: seq<byte>, before: View, after: View, out: seq<byte>)
  {
    match before
    case Dead => out == [] && after == Dead
    case Aligned(t, x, cap) =>
      && x + |out| <= cap <= |plain|
      && out == plain[x..x + |out|]
      && after == Aligned(t, x + |out|, cap)
  }

  lemma DeliveredBounds(plain: seq<byte>, a: View, b: View, out: seq<byte>)
    requires Delivered(plain, a, b, out)
    ensures a.Aligned? ==> b == Aligned(a.t, a.x + |out|, a.cap) && a.x + |out| <= a.cap
    ensures a.Dead? ==> out == []
  {
  }

  lemma DeliveredTwice(plain: seq<byte>, a: View, b: View, c: View, out: seq<byte>, more: seq<byte>)
    requires Delivered(plain, a, b, out) && Delivered(plain, b, c, more)
    ensures Delivered(plain, a, c, out + more)
  {
  }

  class PackageReader {
    const src: PayloadStream
    var window: nat         // what the limited reader still lets through
    var nextSeq: nat        // sequence number expected of the next package
    var pending: seq<byte>  // decrypted but not yet delivered
    ghost var view: View

    ghost function Limit(): nat
      reads this, src
      requires src.Valid()
    {
      Min(src.pos + window, src.end)
    }

    ghost predicate Valid()
      reads this, src
    {
      src.Valid() && Follows(src.sizes, src.plain, src.pos, Limit(), nextSeq, pending, view)
    }

    /** A reader over the next `window` bytes of the stream that expects package `firstSeq` first. */
    constructor (src: PayloadStream, window: nat, firstSeq: nat, ghost view: View)
      requires src.Valid()
      requires Follows(src.sizes, src.plain, src.pos, Min(src.pos + window, src.end), firstSeq, [], view)
      ensures this.src == src && this.view == view && pending == [] && nextSeq == firstSeq && this.window == window
      ensures Valid()
    {
      this.src, this.window, nextSeq, pending, this.view := src, window, firstSeq, [], view;
    }

    /** Opens one package into `pending`. */
    method OpenNext() returns (ok: bool)
      requires Valid() && pending == []
      modifies this, src
      ensures view == old(view)
      ensures ok <==> view.Aligned? && view.x < view.cap
      ensures ok ==> Valid() && pending != [] && |pending| == Min(BLOCK, view.cap - view.x)
    {
      hide Follows, OpenPackage;
      var avail := Min(window, src.end - src.pos);
      assert avail == Limit() - src.pos;
      Opened(src.sizes, src.plain, src.pos, Limit(), nextSeq, view);
      match OpenPackage(src.sizes, src.pos, avail, nextSeq) {
        case None => return false;
        case Some(payload) =>
          var taken := Min(PACKAGE, avail);
          AfterOpen(src.sizes, src.plain, src.pos, Limit(), nextSeq, view, src.pos + taken,
                    src.plain[payload.lo..payload.hi]);
          src.pos := src.pos + taken;
          window := window - taken;
          nextSeq := nextSeq + 1;
          pending := src.plain[payload.lo..payload.hi];
          return true;
      }
    }

    /** Delivers up to `n` pending bytes. */
    method Take(n: nat) returns (out: seq<byte>)
      requires Valid() && (view.Aligned? || pending == [])
      modifies this
      ensures Valid() && Delivered(src.plain, old(view), view, out)
      ensures |out| == Min(n, |old(pending)|) && (|old(pending)| <= n ==> pending == [])
    {
      var k := Min(n, |pending|);
      out := pending[..k];
      pending := pending[k..];
      view := if view.Aligned? then Aligned(view.t, view.x + k, view.cap) else Dead;
    }

    /** Opens one package and delivers up to `n` bytes of it. */
    method OpenAndTake(n: nat) returns (out: seq<byte>, status: Status)
      requires Valid() && pending == [] && 0 < n
      modifies this, src
      ensures |out| <= n
      ensures status == Fine <==> old(view).Aligned? && old(view).x < old(view).cap
      ensures status == Fine ==> Valid() && Delivered(src.plain, old(view), view, out)
      ensures status == Fine ==> |out| == Min(n, Min(BLOCK, old(view).cap - old(view).x))
      ensures status == Fine ==> 0 < |out| && (|out| < n || BLOCK <= n ==> pending == [])
      ensures status != Fine ==> out == []
    {
      out := [];
      var ok := OpenNext();
      if !ok {
        // the input ended, or the next bytes do not form the expected package
        var ended: bool := *;
        return [], if ended then Ended else Broken;
      }
      out := Take(n);
      status := Fine;
    }

    /**
     Reads at most `n` bytes: first what is pending, then whole packages while one fits, then one
     more package for the rest.
     */
    method Read(n: nat) returns (out: seq<byte>, status: Status)
      requires Valid()
      modifies this, src
      ensures |out| <= n
      ensures exists v :: Delivered(src.plain, old(view), v, out)
      ensures status == Fine ==> Valid() && Delivered(src.plain, old(view), view, out)
      ensures status == Fine && n > 0 ==> out != []
      ensures status != Fine ==> n > 0
      ensures status != Fine && old(view).Aligned? ==>
                && old(view).x + n > old(view).cap
                && (old(view).x == old(view).cap || old(pending) != [] || n >= BLOCK)
      ensures old(view).Aligned? && old(pending) == [] ==>
                var avail := old(view).cap - old(view).x;
                && |out| == Min(n, avail)
                && (status == Fine <==> n <= avail || avail > n / BLOCK * BLOCK)
    {
      hide Follows, Delivered;
      ghost var v0, k := view, 0;
      status := Fine;
      if n == 0 {
        out := Take(0);
        return;
      }
      out := Take(n);
      while n - |out| >= BLOCK
        invariant |out| <= n && status == Fine && Valid()
        invariant Delivered(src.plain, v0, view, out)
        invariant |out| < n ==> pending == []
        invariant n < BLOCK && old(pending) == [] ==> out == []
        invariant v0.Aligned? && old(pending) == [] ==>
                    |out| <= n / BLOCK * BLOCK && (v0.x + |out| == v0.cap || |out| == k * BLOCK)
        decreases n - |out|
      {
        k := k + 1;
        out, status := ReadMore(v0, out, BLOCK);
        if status != Fine { return; }
      }
      DeliveredBounds(src.plain, v0, view, out);
      if |out| < n {
        out, status := ReadMore(v0, out, n - |out|);
        if status == Fine { DeliveredBounds(src.plain, v0, view, out); }
      }
    }

    /** Appends up to `n` bytes of the next package to `sofar`. */
    method ReadMore(ghost v0: View, sofar: seq<byte>, n: nat) returns (out: seq<byte>, status: Status)
      requires Valid() && pending == [] && 0 < n
      requires Delivered(src.plain, v0, view, sofar)
      modifies this, src
      ensures |sofar| <= |out| <= |sofar| + n
      ensures exists v :: Delivered(src.plain, v0, v, out)
      ensures status == Fine ==> Valid() && Delivered(src.plain, v0, view, out)
      ensures status == Fine ==> |sofar| < |out| && (|out| < |sofar| + n || BLOCK <= n ==> pending == [])
      ensures status == Fine && v0.Aligned? ==> |out| == |sofar| + Min(n, Min(BLOCK, v0.cap - v0.x - |sofar|))
      ensures status != Fine ==> out == sofar && (v0.Aligned? ==> v0.x + |sofar| == v0.cap)
    {
      ghost var v1 := view;
      var more, st := OpenAndTake(n);
      out, status := sofar + more, st;
      if st == Fine {
        DeliveredTwice(src.plain, v0, v1, view, sofar, more);
      } else {
        assert out == sofar;
        assert Delivered(src.plain, v0, v1, out);
      }
    }

    /** Reads exactly `n` bytes, repeating reads as often as necessary. */
    method ReadFull(n: nat) returns (out: seq<byte>, status: Status)
      requires Valid()
      modifies this, src
      ensures |out| <= n
      ensures exists v :: Delivered(src.plain, old(view), v, out)
      ensures status == Fine ==> |out| == n && Valid() && Delivered(src.plain, old(view), view, out)
      ensures old(view).Aligned? ==> (status == Fine <==> old(view).x + n <= old(view).cap)
      ensures old(view).Dead? ==> (status == Fine <==> n == 0)
    {
      ghost var v0 := view;
      out, status := [], Fine;
      while |out| < n
        invariant |out| <= n && status == Fine && Valid()
        invariant Delivered(src.plain, v0, view, out)
        decreases n - |out|
      {
        ghost var v1 := view;
        var more, st := Read(n - |out|);
        ghost var v2 :| Delivered(src.plain, v1, v2, more);
        DeliveredTwice(src.plain, v0, v1, v2, out, more);
        out, status := out + more, st;
        if st != Fine { return; }
      }
    }
  }
}
