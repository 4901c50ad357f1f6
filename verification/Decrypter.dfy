/**
 The stateful reader that decrypts a plaintext range of an object made of encrypted parts, and the
 copy loop that drives it.
 */
module Decrypters {
  import opened Wrappers
  import opened Dare
  import opened PackageReaders
  import opened RangePlan

  const WORD := 0x1_0000_0000_0000_0000

  /** The value of an unsigned 64-bit expression. */
  function Wrap(x: int): nat { x % WORD }

  lemma WrapIs(x: int)
    requires -WORD < x < WORD
    ensures Wrap(x) == if x < 0 then x + WORD else x
  {
  }

  /** A wrapped difference never limits anything, being larger than any length. */
  lemma FirstWrapped(sizes: seq<nat>, start: nat, end: nat)
    requires ValidRange(sizes, start, end)
    ensures Min(Wrap(sizes[0] - InPart(sizes, start)), end - start + 1) == FirstRemain(sizes, start, end)
    ensures Min(Wrap(EncSize(sizes[0]) - InPart(sizes, start) / BLOCK * PACKAGE),
                WindowEnd(sizes, end) - WindowStart(sizes, start))
            == FirstWindow(sizes, start, end)
  {
    hide EncSize, Wrap, PartOf, WindowEnd, WindowStart;
    WindowOrdered(sizes, start, end);
    WindowBounds(sizes, start);
    WindowBounds(sizes, end);
    StartsMonotone(sizes, 1, |sizes|);
    WrapIs(EncSize(sizes[0]) - InPart(sizes, start) / BLOCK * PACKAGE);
    WrapIs(sizes[0] - InPart(sizes, start));
  }

  datatype EncryptedPart = EncryptedPart(size: nat, encryptedSize: nat)

  /** A payload interval, both ends inclusive. */
  datatype Range = Range(start: nat, end: nat)

  /**
   The position of a reader that has delivered all bytes it was asked for with part `c` as its counter:
   either it stands at the start of the next part, or no reader can go on from there.
   */
  lemma NextPart(sizes: seq<nat>, plain: seq<byte>, pos: nat, limit: nat, q: nat, pending: seq<byte>,
                 view: View, c: nat, srcEnd: nat)
    requires |plain| == PlainStart(sizes, |sizes|)
    requires c < |sizes| - 1 && forall i :: 0 <= i < |sizes| - 1 ==> sizes[i] > 0
    requires view.Aligned? && Follows(sizes, plain, pos, limit, q, pending, view)
    requires EncStart(sizes, view.t) <= srcEnd && view.x < |plain|
    requires view.x == PlainStart(sizes, view.t) + sizes[c]
    requires view == PartView(sizes, view.t, view.x, Room(sizes, view.t, EncSize(sizes[c]), srcEnd))
    ensures sizes[c] == sizes[view.t] ==>
              && view.t + 1 < |sizes| && sizes[view.t + 1] > 0
              && pending == [] && pos == EncStart(sizes, view.t + 1) && view.x == PlainStart(sizes, view.t + 1)
    ensures sizes[c] != sizes[view.t] ==> forall avail: nat :: OpenPackage(sizes, pos, avail, 0).None?
  {
    hide Reach;
    var t := view.t;
    var room := Room(sizes, t, EncSize(sizes[c]), srcEnd);
    StartsMonotone(sizes, t + 1, |sizes|);
    ReachInPart(sizes[t], room);
    ReachOfRoom(sizes[t], sizes[c], room);
    if sizes[c] == sizes[t] {
      BlocksAtLeast(sizes[t], q);
      if t + 2 == |sizes| {
        assert PlainStart(sizes, t + 2) == PlainStart(sizes, t + 1) + sizes[t + 1];
      }
    } else {
      assert sizes[c] < sizes[t] && sizes[c] % BLOCK == 0;
      assert pending == [];
      assert q * BLOCK == sizes[c];
      BlocksBelow(sizes[t], q);
      forall avail: nat ensures OpenPackage(sizes, pos, avail, 0).None? {
        EncPartOfUnique(sizes, pos, 0, t);
      }
    }
  }

  /** A reader at the very start of a part follows its view. */
  lemma FreshFollows(sizes: seq<nat>, plain: seq<byte>, t: nat, room: nat, limit: nat, q: nat)
    requires |plain| == PlainStart(sizes, |sizes|)
    requires t < |sizes| && q * BLOCK < sizes[t]
    requires q * PACKAGE <= room && limit == EncStart(sizes, t) + room
    ensures Follows(sizes, plain, EncStart(sizes, t) + q * PACKAGE, limit, q, [],
                    PartView(sizes, t, PlainStart(sizes, t) + q * BLOCK, room))
  {
    hide Reach, EncSize;
    NextPackage(sizes[t], q, room);
    ReachInPart(sizes[t], room);
    StartsMonotone(sizes, t + 1, |sizes|);
    BlocksBelow(sizes[t], q);
  }

  /** What a reader produces that starts at `pos` and expects the first package of a part. */
  ghost function FreshView(sizes: seq<nat>, pos: nat, limit: nat): View
    requires pos <= limit
  {
    var t := EncPartOf(sizes, pos, 0);
    if OpenPackage(sizes, pos, limit - pos, 0).Some? then
      PartView(sizes, t, PlainStart(sizes, t), limit - pos)
    else Dead
  }

  lemma FreshViewFollows(sizes: seq<nat>, plain: seq<byte>, pos: nat, limit: nat)
    requires |plain| == PlainStart(sizes, |sizes|) && pos <= limit
    ensures Follows(sizes, plain, pos, limit, 0, [], FreshView(sizes, pos, limit))
    ensures var view := FreshView(sizes, pos, limit);
            view.Aligned? ==> view.x < view.cap && view.t == EncPartOf(sizes, pos, 0)
  {
    hide Reach, EncSize;
    var t := EncPartOf(sizes, pos, 0);
    if OpenPackage(sizes, pos, limit - pos, 0).Some? {
      assert sizes[t] > 0 by { if sizes[t] == 0 { assert EncSize(0) == 0 by { EncSizeFloor(0); } } }
      FreshFollows(sizes, plain, t, limit - pos, limit, 0);
      NextPackage(sizes[t], 0, limit - pos);
    }
  }

  /** Going on with the next part neither gains nor loses the range. */
  lemma CrossOver(sizes: seq<nat>, plain: seq<byte>, pos: nat, limit: nat, q: nat, pending: seq<byte>,
                  view: View, remain: nat, c: nat, srcEnd: nat, stop: nat)
    requires |plain| == PlainStart(sizes, |sizes|) && stop <= |plain|
    requires c < |sizes| - 1 && forall i :: 0 <= i < |sizes| - 1 ==> sizes[i] > 0
    requires Counted(sizes, srcEnd, c, remain, view, stop) && pos <= srcEnd
    requires view.Aligned? && view.x + remain < stop && view.x + remain <= view.cap
    requires Follows(sizes, plain, pos, limit, q, pending, Aligned(view.t, view.x + remain, view.cap))
    ensures var next := FreshView(sizes, pos, Min(pos + EncSize(sizes[c + 1]), srcEnd));
            && (WillServe(sizes, srcEnd, c, remain, view, stop) <==>
                WillServe(sizes, srcEnd, c + 1, sizes[c + 1], next, stop))
            && Counted(sizes, srcEnd, c + 1, sizes[c + 1], next, stop)
            && (next.Aligned? ==> next.x == view.x + remain)
  {
    hide Reach, EncSize, Follows, FreshView, WillServe;
    var t := view.t;
    NextPart(sizes, plain, pos, limit, q, pending, Aligned(t, view.x + remain, view.cap), c, srcEnd);
    if sizes[c] == sizes[t] {
      CrossSame(sizes, view, remain, c, srcEnd, stop);
    } else {
      CrossOther(sizes, view, remain, c, srcEnd, stop);
      NothingFresh(sizes, pos, Min(pos + EncSize(sizes[c + 1]), srcEnd));
    }
  }

  lemma NothingFresh(sizes: seq<nat>, pos: nat, limit: nat)
    requires pos <= limit && OpenPackage(sizes, pos, limit - pos, 0).None?
    ensures FreshView(sizes, pos, limit) == Dead
  {
  }

  /** A part counted with the size of another one: nothing goes on, and nothing was to be served. */
  lemma CrossOther(sizes: seq<nat>, view: View, remain: nat, c: nat, srcEnd: nat, stop: nat)
    requires c < |sizes| - 1 && sizes[c + 1] >= 0 && forall i :: 0 <= i < |sizes| - 1 ==> sizes[i] > 0
    requires Counted(sizes, srcEnd, c, remain, view, stop)
    requires view.Aligned? && view.x + remain < stop && view.x + remain <= view.cap && sizes[c] != sizes[view.t]
    ensures !WillServe(sizes, srcEnd, c, remain, view, stop)
    ensures !WillServe(sizes, srcEnd, c + 1, sizes[c + 1], Dead, stop)
    ensures Counted(sizes, srcEnd, c + 1, sizes[c + 1], Dead, stop)
  {
    hide Reach, EncSize;
  }

  /** A part counted with its own size: the next reader starts where the next part does. */
  lemma CrossSame(sizes: seq<nat>, view: View, remain: nat, c: nat, srcEnd: nat, stop: nat)
    requires stop <= PlainStart(sizes, |sizes|)
    requires c < |sizes| - 1 && forall i :: 0 <= i < |sizes| - 1 ==> sizes[i] > 0
    requires Counted(sizes, srcEnd, c, remain, view, stop)
    requires view.Aligned? && view.x + remain < stop && view.x + remain <= view.cap && sizes[c] == sizes[view.t]
    requires view.t + 1 < |sizes| && sizes[view.t + 1] > 0 && EncStart(sizes, view.t + 1) <= srcEnd
    ensures var pos := EncStart(sizes, view.t + 1);
            var next := FreshView(sizes, pos, Min(pos + EncSize(sizes[c + 1]), srcEnd));
            && WillServe(sizes, srcEnd, c, remain, view, stop) ==
               WillServe(sizes, srcEnd, c + 1, sizes[c + 1], next, stop)
            && Counted(sizes, srcEnd, c + 1, sizes[c + 1], next, stop)
            && (next.Aligned? ==> next.x == view.x + remain)
  {
    hide Reach, EncSize;
    var t := view.t;
    var pos := EncStart(sizes, t + 1);
    var room := Room(sizes, t + 1, EncSize(sizes[c + 1]), srcEnd);
    var next := FreshView(sizes, pos, Min(pos + EncSize(sizes[c + 1]), srcEnd));
    StandsAt(sizes, t + 1);
    var ideal := PartView(sizes, t + 1, PlainStart(sizes, t + 1), room);
    if next.Dead? {
      NothingOpens(sizes, t + 1, room);
      assert ideal.x == ideal.cap;
    } else {
      assert next == ideal;
    }
  }

  /** A reader never yields more than the counter of its part allows for. */
  lemma StaysCounted(sizes: seq<nat>, srcEnd: nat, c: nat, remain: nat, view: View, stop: nat, n: nat)
    requires Counted(sizes, srcEnd, c, remain, view, stop)
    requires view.Aligned? ==> n <= stop - view.x
    ensures view.Aligned? ==> Min(view.x + n, view.cap) <= view.x + remain
  {
    hide Reach, EncSize;
    if view.Aligned? && view.x + remain < stop {
      ReachOfRoom(sizes[view.t], sizes[c], Room(sizes, view.t, EncSize(sizes[c]), srcEnd));
    }
  }

  lemma DeadServes(sizes: seq<nat>, srcEnd: nat, c: nat, remain: nat, stop: nat)
    ensures !WillServe(sizes, srcEnd, c, remain, Dead, stop)
  {
  }

  lemma StandsAt(sizes: seq<nat>, t: nat)
    requires t < |sizes| && sizes[t] > 0
    ensures EncPartOf(sizes, EncStart(sizes, t), 0) == t
  {
    EncSizeStrictlyMonotone(0, sizes[t]);
    EncPartOfUnique(sizes, EncStart(sizes, t), 0, t);
  }

  lemma NothingOpens(sizes: seq<nat>, t: nat, room: nat)
    requires t < |sizes| && sizes[t] > 0
    requires OpenPackage(sizes, EncStart(sizes, t), room, 0).None?
    ensures Reach(sizes[t], room) == 0
  {
    hide Reach, EncSize;
    StandsAt(sizes, t);
    NextPackage(sizes[t], 0, room);
  }

  /** The first reader starts with the package that holds the first byte of the range. */
  lemma FirstFollows(sizes: seq<nat>, plain: seq<byte>, start: nat, end: nat, view: View)
    requires ValidRange(sizes, start, end) && |plain| == PlainStart(sizes, |sizes|)
    requires var t, q := PartOf(sizes, start, 0), InPart(sizes, start) / BLOCK;
             view == Aligned(t, PlainStart(sizes, t) + q * BLOCK, FirstView(sizes, start, end).cap)
    ensures Follows(sizes, plain, WindowStart(sizes, start),
              Min(WindowStart(sizes, start) + FirstWindow(sizes, start, end), WindowEnd(sizes, end)),
              InPart(sizes, start) / BLOCK, [], view)
    ensures view.x + InPart(sizes, start) % BLOCK == start
  {
    hide Reach, EncSize, PartOf, Follows;
    var t, q := PartOf(sizes, start, 0), InPart(sizes, start) / BLOCK;
    WindowOrdered(sizes, start, end);
    WindowBounds(sizes, start);
    var room := q * PACKAGE + FirstWindow(sizes, start, end);
    hide WindowEnd;
    assert Min(WindowStart(sizes, start) + FirstWindow(sizes, start, end), WindowEnd(sizes, end)) ==
           EncStart(sizes, t) + room;
    FreshFollows(sizes, plain, t, room, EncStart(sizes, t) + room, q);
  }

  /** More is asked for than a part has, and no rest of a package at the end of it. */
  predicate SpansPart(size: nat, n: nat)
  {
    0 < size < n && size <= n / BLOCK * BLOCK
  }

  /** A read of all that remains of a part, at `x`, which yields `k` bytes. */
  lemma LastOfPart(sizes: seq<nat>, srcEnd: nat, c: nat, remain: nat, view: View, stop: nat, x: nat, k: nat, fine: bool)
    requires Counted(sizes, srcEnd, c, remain, view, stop) && x < stop && k <= remain <= stop - x
    requires (fine ==> k == remain)
    requires view.Aligned? ==> view.x == x && x + k <= view.cap && (fine <==> x + remain <= view.cap)
    requires view.Dead? ==> k == 0 && (fine <==> remain == 0)
    ensures !fine ==> x + k < stop && !WillServe(sizes, srcEnd, c, remain, view, stop)
    ensures fine && x + k == stop ==> WillServe(sizes, srcEnd, c, remain, view, stop)
    ensures fine && x + k < stop && c + 1 == |sizes| ==> !WillServe(sizes, srcEnd, c, remain, view, stop)
    ensures c < |sizes| && (fine && c + 1 < |sizes| ==> view.Aligned?)
  {
    hide Reach, EncSize;
  }

  /**
   The first read of a part, which yields `k` bytes: it keeps what the run is going to serve, and fails exactly
   if the part has nothing more while the range is not at its end, and the read is not satisfied with that.
   */
  lemma FirstRead(sizes: seq<nat>, srcEnd: nat, c: nat, view: View, stop: nat, n: nat, k: nat, fine: bool)
    requires c < |sizes| && forall i :: 0 <= i < |sizes| - 1 ==> sizes[i] > 0
    requires Counted(sizes, srcEnd, c, sizes[c], view, stop)
    requires view.Aligned? && view.x < view.cap && view.x < stop && n <= stop - view.x && k == Min(n, view.cap - view.x)
    requires fine <==> n <= view.cap - view.x || view.cap - view.x > n / BLOCK * BLOCK
    ensures var after := Aligned(view.t, view.x + k, view.cap);
            fine ==>
              && k <= sizes[c] && Counted(sizes, srcEnd, c, sizes[c] - k, after, stop)
              && WillServe(sizes, srcEnd, c, sizes[c] - k, after, stop) ==
                 WillServe(sizes, srcEnd, c, sizes[c], view, stop)
    ensures view.x + k == stop ==> fine && WillServe(sizes, srcEnd, c, sizes[c], view, stop)
    ensures WillServe(sizes, srcEnd, c, sizes[c], view, stop) ==> (fine <==> !SpansPart(sizes[c], n))
  {
    hide Reach, EncSize;
    StaysCounted(sizes, srcEnd, c, sizes[c], view, stop, n);
    StaysCounted(sizes, srcEnd, c, sizes[c], view, stop, stop - view.x);
  }

  lemma FirstReader(sizes: seq<nat>, plain: seq<byte>, start: nat, end: nat)
    requires ValidRange(sizes, start, end) && |plain| == PlainStart(sizes, |sizes|)
    ensures InPart(sizes, start) / BLOCK < 0x1_0000_0000 && InPart(sizes, start) % BLOCK <= start
    ensures var first := FirstView(sizes, start, end);
            && first.Aligned? && first.x == start
            && Follows(sizes, plain, WindowStart(sizes, start),
                 Min(WindowStart(sizes, start) + FirstWindow(sizes, start, end), WindowEnd(sizes, end)),
                 InPart(sizes, start) / BLOCK, [],
                 Aligned(first.t, start - InPart(sizes, start) % BLOCK, first.cap))
  {
    hide Reach, EncSize, Follows, FirstWindow, WindowStart, WindowEnd, PartOf;
    var t, a := PartOf(sizes, start, 0), InPart(sizes, start);
    var view := Aligned(t, PlainStart(sizes, t) + a / BLOCK * BLOCK, FirstView(sizes, start, end).cap);
    FirstFollows(sizes, plain, start, end, view);
    assert a < sizes[t] <= MAX_SIZE;
  }

  class Decrypter {
    const parts: seq<EncryptedPart>
    ghost const sizes: seq<nat>
    const rangeParam: Option<Range>
    var reader: PayloadStream?
    var decReader: PackageReader?
    var currentPart: nat
    var partDataRemain: nat
    var encPartRangeLen: nat
    var seqNumber: nat
    var decLen: nat
    var skipLen: nat
    var length: nat
    var offset: nat
    ghost var delivered: nat   // plaintext offset of the next byte to deliver

    /** The parts are those of the object. */
    ghost predicate Matches()
    {
      && |parts| == |sizes|
      && WithinLimits(sizes)
      && (forall i :: 0 <= i < |sizes| - 1 ==> sizes[i] > 0)
      && (forall i :: 0 <= i < |parts| ==> parts[i] == EncryptedPart(sizes[i], EncSize(sizes[i])))
      && (rangeParam.Some? ==> ValidRange(sizes, rangeParam.value.start, rangeParam.value.end))
    }

    constructor (sizes: seq<nat>, rangeParam: Option<Range>)
      requires WithinLimits(sizes) && forall i :: 0 <= i < |sizes| - 1 ==> sizes[i] > 0
      requires rangeParam.Some? ==> ValidRange(sizes, rangeParam.value.start, rangeParam.value.end)
      ensures Matches() && this.sizes == sizes && this.rangeParam == rangeParam
      ensures currentPart == seqNumber == skipLen == offset == 0
    {
      this.parts := seq(|sizes|, i requires 0 <= i < |sizes| => EncryptedPart(sizes[i], EncSize(sizes[i])));
      this.sizes, this.rangeParam := sizes, rangeParam;
      currentPart, seqNumber, skipLen, offset := 0, 0, 0, 0;
      reader, decReader := null, null;
    }

    /** Finds the part of a plaintext offset from part `from` on, accumulating the sizes before it. */
    method FindPart(pos: nat, from: nat, sum: nat, encSum: nat) returns (index: nat, sum': nat, encSum': nat)
      requires Matches() && from < |sizes| && pos < PlainStart(sizes, |sizes|)
      requires sum == PlainStart(sizes, from) && encSum == EncStart(sizes, from) && sum <= pos
      ensures index == PartOf(sizes, pos, from) < |sizes|
      ensures sum' == PlainStart(sizes, index) && encSum' == EncStart(sizes, index)
    {
      hide EncSize, Wrap;
      sum', encSum', index := sum, encSum, from;
      while index < |parts|
        invariant from <= index <= |parts|
        invariant index < |parts| ==> sum' <= pos
        invariant sum' == PlainStart(sizes, index) && encSum' == EncStart(sizes, index)
        invariant PartOf(sizes, pos, from) == PartOf(sizes, pos, index)
      {
        StartsMonotone(sizes, index + 1, |sizes|);
        WrapIs(sum' + parts[index].size);
        WrapIs(encSum' + parts[index].encryptedSize);
        if pos < Wrap(sum' + parts[index].size) {
          return;
        }
        sum' := Wrap(sum' + parts[index].size);
        encSum' := Wrap(encSum' + parts[index].encryptedSize);
        index := index + 1;
      }
    }

    /** Where the range begins: its window, the package to start with and the counters of the first part. */
    method LocateStart(start: nat) returns (partStart: nat, sum: nat, encSum: nat)
      requires Matches() && start < PlainStart(sizes, |sizes|)
      requires partDataRemain == sizes[0] && encPartRangeLen == EncSize(sizes[0])
      modifies `skipLen, `seqNumber, `offset, `encPartRangeLen, `partDataRemain
      ensures partStart == PartOf(sizes, start, 0) < |sizes|
      ensures sum == PlainStart(sizes, partStart) && encSum == EncStart(sizes, partStart)
      ensures seqNumber == InPart(sizes, start) / BLOCK && skipLen == InPart(sizes, start) % BLOCK
      ensures offset == WindowStart(sizes, start)
      ensures encPartRangeLen == Wrap(EncSize(sizes[0]) - seqNumber * PACKAGE)
      ensures partDataRemain == Wrap(sizes[0] - InPart(sizes, start))
    {
      hide EncSize, Wrap, PartOf;
      partStart, sum, encSum := FindPart(start, 0, 0, 0);
      ghost var a := InPart(sizes, start);
      ghost var q := a / BLOCK;
      WindowBounds(sizes, start);
      StartsMonotone(sizes, 1, |sizes|);
      WrapIs(start - sum);
      WrapIs(q * PACKAGE);
      WrapIs(encSum + q * PACKAGE);
      WrapIs(sizes[0] + sum);

      skipLen := Wrap(start - sum) % BLOCK;
      seqNumber := Wrap(start - sum) / BLOCK;
      var encOffPart := Wrap(seqNumber * PACKAGE);
      offset := Wrap(encSum + encOffPart);
      encPartRangeLen := Wrap(encPartRangeLen - encOffPart);
      partDataRemain := Wrap(Wrap(partDataRemain + sum) - start);
    }

    /** Where the window ends: behind the last package needed, but not behind its part. */
    method LocateEnd(end: nat, partStart: nat, sum: nat, encSum: nat) returns (endEnc: nat)
      requires Matches() && end < PlainStart(sizes, |sizes|)
      requires partStart <= PartOf(sizes, end, 0)
      requires sum == PlainStart(sizes, partStart) && encSum == EncStart(sizes, partStart) && sum <= end
      ensures endEnc == WindowEnd(sizes, end)
    {
      hide EncSize, Wrap, PartOf;
      var partEnd, sum', encSum' := FindPart(end, partStart, sum, encSum);
      PartOfUnique(sizes, end, partStart, PartOf(sizes, end, 0));
      ghost var k := InPart(sizes, end) / BLOCK;
      WindowBounds(sizes, end);
      WrapIs(end - sum');
      WrapIs(k + 1);
      WrapIs((k + 1) * PACKAGE);
      WrapIs(encSum' + (k + 1) * PACKAGE);
      WrapIs(encSum' + EncSize(sizes[partEnd]));
      var payloadPartEnd := Wrap(end - sum') / BLOCK;
      endEnc := Wrap(encSum' + Wrap(Wrap(payloadPartEnd + 1) * PACKAGE));
      var endPartEnc := Wrap(encSum' + parts[partEnd].encryptedSize);
      if endPartEnc < endEnc {
        endEnc := endPartEnc;
      }
    }

    /** The lengths of the window and of the range, and the limits they put on the counters. */
    method LimitCounters(start: nat, end: nat, endEnc: nat)
      requires ValidRange(sizes, start, end)
      requires endEnc == WindowEnd(sizes, end) && offset == WindowStart(sizes, start)
      requires encPartRangeLen == Wrap(EncSize(sizes[0]) - InPart(sizes, start) / BLOCK * PACKAGE)
      requires partDataRemain == Wrap(sizes[0] - InPart(sizes, start))
      modifies `length, `decLen, `encPartRangeLen, `partDataRemain
      ensures offset + length == WindowEnd(sizes, end) && decLen == end - start + 1
      ensures partDataRemain == FirstRemain(sizes, start, end) && encPartRangeLen == FirstWindow(sizes, start, end)
    {
      hide EncSize, Wrap, PartOf, WindowEnd, WindowStart, FirstRemain, FirstWindow, InPart;
      WindowOrdered(sizes, start, end);
      WindowBounds(sizes, start);
      WindowBounds(sizes, end);
      WrapIs(endEnc - offset);
      WrapIs(end - start);
      WrapIs(end - start + 1);
      FirstWrapped(sizes, start, end);
      length := Wrap(endEnc - offset);
      decLen := Wrap(Wrap(end - start) + 1);

      if length < encPartRangeLen {
        encPartRangeLen := length;
      }
      if decLen < partDataRemain {
        partDataRemain := decLen;
      }
    }

    /**
     Turns the range into the encrypted window, the package to start with, the bytes to skip and the
     counters of the first read. No 64-bit computation of the window wraps around.
     */
    method InitRangeParams()
      requires Matches() && currentPart == 0
      modifies this
      ensures unchanged(`reader) && unchanged(`decReader) && currentPart == 0 && delivered == old(delivered)
      ensures rangeParam.None? ==>
                && partDataRemain == decLen == sizes[0] && encPartRangeLen == length == EncSize(sizes[0])
                && unchanged(`seqNumber) && unchanged(`skipLen) && unchanged(`offset)
      ensures rangeParam.Some? ==>
                var start, end := rangeParam.value.start, rangeParam.value.end;
                && offset == WindowStart(sizes, start)
                && offset + length == WindowEnd(sizes, end)
                && seqNumber == InPart(sizes, start) / BLOCK
                && skipLen == InPart(sizes, start) % BLOCK
                && decLen == end - start + 1
                && partDataRemain == FirstRemain(sizes, start, end)
                && encPartRangeLen == FirstWindow(sizes, start, end)
    {
      hide EncSize, Wrap, PartOf, WindowEnd, WindowStart, FirstRemain, FirstWindow, InPart;
      partDataRemain := parts[currentPart].size;
      encPartRangeLen := parts[currentPart].encryptedSize;
      if rangeParam.None? {
        decLen, length := partDataRemain, encPartRangeLen;
        return;
      }
      LimitToRange(rangeParam.value.start, rangeParam.value.end);
    }

    /** The same for a range, once the counters are those of the first part. */
    method LimitToRange(start: nat, end: nat)
      requires Matches() && ValidRange(sizes, start, end)
      requires partDataRemain == sizes[0] && encPartRangeLen == EncSize(sizes[0])
      modifies `skipLen, `seqNumber, `offset, `length, `decLen, `encPartRangeLen, `partDataRemain
      ensures offset == WindowStart(sizes, start) && offset + length == WindowEnd(sizes, end)
      ensures seqNumber == InPart(sizes, start) / BLOCK && skipLen == InPart(sizes, start) % BLOCK
      ensures decLen == end - start + 1
      ensures partDataRemain == FirstRemain(sizes, start, end) && encPartRangeLen == FirstWindow(sizes, start, end)
    {
      hide EncSize, Wrap, PartOf, WindowEnd, WindowStart, FirstRemain, FirstWindow, InPart;
      WindowOrdered(sizes, start, end);
      var partStart, sum, encSum := LocateStart(start);
      var endEnc := LocateEnd(end, partStart, sum, encSum);
      LimitCounters(start, end, endEnc);
    }

    ghost predicate Attached()
      reads this, reader, decReader, if decReader == null then {} else {decReader.src}
    {
      && Matches()
      && reader != null && decReader != null && decReader.src == reader
      && reader.sizes == sizes && decReader.Valid()
    }

    /** A run that is to deliver the plaintext before `stop`. */
    ghost predicate Running(stop: nat)
      reads this, reader, decReader, if decReader == null then {} else {decReader.src}
    {
      && Attached()
      && 0 < stop <= |reader.plain| && delivered <= stop
      && reader.end == WindowEnd(sizes, stop - 1)
      && Counted(sizes, reader.end, currentPart, partDataRemain, decReader.view, stop)
      && (decReader.view.Aligned? ==> decReader.view.x == delivered)
    }

    /** Whether the rest of the run succeeds. */
    ghost predicate Serving(stop: nat)
      requires reader != null && decReader != null
      reads this, reader, decReader
    {
      WillServe(sizes, reader.end, currentPart, partDataRemain, decReader.view, stop)
    }

    /** A read of `n` bytes that asks for the whole next part in whole packages, and for more. */
    ghost predicate Spans(n: nat)
      reads this
    {
      && partDataRemain <= n && currentPart + 1 < |sizes|
      && SpansPart(sizes[currentPart + 1], n - partDataRemain)
    }

    /** Reads of less than a package span nothing. */
    lemma ShortReads(n: nat)
      requires n < BLOCK
      ensures !Spans(n)
    {
    }

    /** Replaces the package reader by one over the next part of the stream and skips the bytes to skip. */
    method InitNextDecReader(ghost view: View) returns (status: Status)
      requires Matches() && reader != null && reader.Valid() && reader.sizes == sizes
      requires seqNumber < 0x1_0000_0000
      requires Follows(sizes, reader.plain, reader.pos, Min(reader.pos + encPartRangeLen, reader.end), seqNumber, [],
                       view)
      requires view.Dead? ==> skipLen == 0
      modifies this`decReader, reader
      ensures view.Aligned? ==> (status == Fine <==> view.x + skipLen <= view.cap)
      ensures view.Dead? ==> status == Fine
      ensures status == Fine ==> Attached() && fresh(decReader)
      ensures status == Fine ==>
                decReader.view == if view.Aligned? then Aligned(view.t, view.x + skipLen, view.cap) else Dead
      ensures status == Fine && skipLen == 0 ==> decReader.pending == []
    {
      hide Follows;
      var r := new PackageReader(reader, encPartRangeLen, seqNumber % 0x1_0000_0000, view);
      decReader := r;
      if skipLen > 0 {
        var skipped: seq<byte>;
        skipped, status := r.ReadFull(skipLen);
        return;
      }
      status := Fine;
    }

    /** Counters of a part that is read from its start. */
    method UpdateRangeParams()
      requires Matches() && currentPart < |parts|
      modifies `partDataRemain, `encPartRangeLen, `seqNumber, `skipLen
      ensures partDataRemain == sizes[currentPart] && encPartRangeLen == EncSize(sizes[currentPart])
      ensures seqNumber == skipLen == 0
    {
      partDataRemain := parts[currentPart].size;
      encPartRangeLen := parts[currentPart].encryptedSize;
      seqNumber := 0;
      skipLen := 0;
    }

    /** A read that stays inside what the current part still has to give. */
    method ReadWithin(n: nat, ghost stop: nat) returns (out: seq<byte>, status: Status)
      requires Running(stop) && 0 < n < partDataRemain && n <= stop - delivered
      modifies this, reader, decReader
      ensures reader == old(reader) && decReader == old(decReader)
      ensures |out| <= n && out == reader.plain[old(delivered)..old(delivered) + |out|]
      ensures delivered == old(delivered) + |out| <= stop
      ensures status == Fine ==> out != [] && Running(stop) && Serving(stop) == old(Serving(stop))
      ensures status != Fine ==> delivered < stop && !old(Serving(stop))
      ensures delivered == stop ==> Serving(stop)
    {
      hide Follows, Reach, EncSize, WindowEnd;
      ghost var v0 := decReader.view;
      out, status := decReader.Read(n);
      delivered := delivered + |out|;
      if status != Fine {
        return;
      }
      partDataRemain := partDataRemain - |out|;
    }

    /** Moves on to part `currentPart` once everything asked of the part before it is delivered. */
    method EnterPart(ghost stop: nat, ghost v0: View, ghost remain: nat) returns (status: Status)
      requires Attached() && 0 < currentPart < |parts| && stop <= |reader.plain|
      requires delivered < stop ==> PartDone(stop, v0, remain, currentPart - 1)
      modifies this, reader
      ensures reader == old(reader) && currentPart == old(currentPart) && delivered == old(delivered)
      ensures status == Fine && Attached() && fresh(decReader) && decReader.pending == []
      ensures currentPart < |sizes| && partDataRemain == sizes[currentPart]
      ensures delivered < stop ==>
                && Counted(sizes, reader.end, currentPart, partDataRemain, decReader.view, stop)
                && (decReader.view.Aligned? ==> decReader.view.x == delivered < decReader.view.cap)
                && Serving(stop) == WillServe(sizes, reader.end, currentPart - 1, remain, v0, stop)
    {
      hide Follows, Reach, EncSize, WindowEnd, FreshView, PartView, WillServe;
      UpdateRangeParams();
      ghost var limit := Min(reader.pos + encPartRangeLen, reader.end);
      ghost var view := FreshView(sizes, reader.pos, limit);
      FreshViewFollows(sizes, reader.plain, reader.pos, limit);
      if delivered < stop {
        CrossOver(sizes, reader.plain, reader.pos, decReader.Limit(), decReader.nextSeq, decReader.pending,
          v0, remain, currentPart - 1, reader.end, stop);
      }
      status := InitNextDecReader(view);
    }

    static lemma Meet(plain: seq<byte>, a: nat, b: nat, c: nat)
      requires a <= b <= c <= |plain|
      ensures plain[a..b] + plain[b..c] == plain[a..c]
    {
    }

    /** A read that finishes the current part and goes on with the next one. */
    method ReadAcross(n: nat, ghost stop: nat) returns (out: seq<byte>, status: Status)
      requires Running(stop) && 0 < n && partDataRemain <= n <= stop - delivered
      modifies this, reader, decReader
      ensures reader == old(reader) && (decReader == old(decReader) || fresh(decReader))
      ensures |out| <= n && out == reader.plain[old(delivered)..old(delivered) + |out|]
      ensures delivered == old(delivered) + |out| <= stop
      ensures delivered == stop ==> status != Broken && old(Serving(stop))
      ensures delivered < stop && status == Fine ==> out != [] && Running(stop) && Serving(stop) == old(Serving(stop))
      ensures delivered < stop && status != Fine ==> !old(Serving(stop)) || old(Spans(n))
      ensures old(Serving(stop)) && old(Spans(n)) ==> delivered < stop && status != Fine
    {
      hide Follows, Reach, EncSize, WindowEnd, Counted, WillServe, PlainStart;
      ghost var v0, remain, middle := decReader.view, partDataRemain, delivered + partDataRemain;
      out, status := FinishPart(stop);
      if status != Fine {
        return;
      }
      currentPart := currentPart + 1;
      if currentPart == |parts| {
        return out, Ended;
      }
      var more;
      more, status := ReadNext(n - |out|, stop, v0, remain);
      Meet(reader.plain, old(delivered), middle, delivered);
      out := out + more;
    }

    /** Reads all that the current part has to give. */
    method FinishPart(ghost stop: nat) returns (out: seq<byte>, status: Status)
      requires Running(stop) && delivered < stop && partDataRemain <= stop - delivered
      modifies `delivered, reader, decReader
      ensures |out| <= partDataRemain && out == reader.plain[old(delivered)..old(delivered) + |out|]
      ensures delivered == old(delivered) + |out| <= stop && currentPart < |sizes|
      ensures status != Fine ==> delivered < stop && !old(Serving(stop))
      ensures status == Fine ==> Attached() && |out| == partDataRemain && reader.end == WindowEnd(sizes, stop - 1)
      ensures status == Fine && delivered == stop ==> old(Serving(stop))
      ensures status == Fine && delivered < stop && currentPart + 1 == |sizes| ==> !old(Serving(stop))
      ensures status == Fine && delivered < stop && currentPart + 1 < |sizes| ==>
                PartDone(stop, old(decReader.view), partDataRemain, currentPart)
    {
      hide Follows, Reach, EncSize, WindowEnd, Counted, WillServe, PlainStart;
      ghost var v0 := decReader.view;
      out, status := decReader.ReadFull(partDataRemain);
      LastOfPart(sizes, reader.end, currentPart, partDataRemain, v0, stop, delivered, |out|, status == Fine);
      delivered := delivered + |out|;
    }

    /** The reader of part `c` has delivered all that it was asked for. */
    ghost predicate PartDone(stop: nat, v0: View, remain: nat, c: nat)
      requires reader != null && decReader != null
      reads this, reader, decReader
    {
      && v0.Aligned? && v0.x + remain == delivered <= v0.cap
      && Counted(sizes, reader.end, c, remain, v0, stop)
      && decReader.view == Aligned(v0.t, delivered, v0.cap)
    }

    /** Enters the next part and reads from it. */
    method ReadNext(m: nat, ghost stop: nat, ghost v0: View, ghost remain: nat) returns (out: seq<byte>, status: Status)
      requires Attached() && 0 < currentPart < |parts| && 0 < stop <= |reader.plain| && m <= stop - delivered
      requires reader.end == WindowEnd(sizes, stop - 1)
      requires delivered < stop ==> PartDone(stop, v0, remain, currentPart - 1)
      modifies this, reader
      ensures reader == old(reader) && fresh(decReader) && currentPart == old(currentPart)
      ensures |out| <= m && out == reader.plain[old(delivered)..old(delivered) + |out|]
      ensures delivered == old(delivered) + |out| <= stop
      ensures old(delivered) == stop ==> status == Fine
      ensures old(delivered) < stop ==>
                var willServe := WillServe(sizes, reader.end, currentPart - 1, remain, v0, stop);
                && (delivered == stop ==> status == Fine && willServe)
                && (delivered < stop && status == Fine ==>
                      (m > 0 ==> out != []) && Running(stop) && Serving(stop) == willServe)
                && (status != Fine ==> delivered < stop && (!willServe || SpansPart(sizes[currentPart], m)))
                && (willServe && SpansPart(sizes[currentPart], m) ==> status != Fine)
    {
      hide Follows, Reach, EncSize, WindowEnd, Counted, WillServe, PlainStart;
      status := EnterPart(stop, v0, remain);
      out, status := ReadStart(m, stop);
    }

    /** The first read of a part. */
    method ReadStart(n: nat, ghost stop: nat) returns (out: seq<byte>, status: Status)
      requires Attached() && delivered <= stop <= |reader.plain| && n <= stop - delivered
      requires decReader.pending == [] && currentPart < |sizes| && partDataRemain == sizes[currentPart]
      requires delivered < stop ==>
                 && Counted(sizes, reader.end, currentPart, partDataRemain, decReader.view, stop)
                 && (decReader.view.Aligned? ==> decReader.view.x == delivered < decReader.view.cap)
      modifies this, reader, decReader
      ensures reader == old(reader) && decReader == old(decReader) && currentPart == old(currentPart)
      ensures |out| <= n && out == reader.plain[old(delivered)..old(delivered) + |out|]
      ensures delivered == old(delivered) + |out| <= stop
      ensures old(delivered) == stop ==> status == Fine
      ensures status == Fine && old(delivered) < stop ==>
                && Attached() && (n > 0 ==> out != [])
                && Counted(sizes, reader.end, currentPart, partDataRemain, decReader.view, stop)
                && (decReader.view.Aligned? ==> decReader.view.x == delivered)
                && Serving(stop) == old(Serving(stop))
      ensures old(delivered) < stop && delivered == stop ==> status == Fine && Serving(stop)
      ensures old(delivered) < stop && status != Fine ==>
                delivered < stop && (!old(Serving(stop)) || SpansPart(old(partDataRemain), n))
      ensures old(delivered) < stop && old(Serving(stop)) && SpansPart(old(partDataRemain), n) ==> status != Fine
    {
      hide Follows, EncSize, WindowEnd, Reach, WillServe, Counted;
      ghost var c, v0, remain := currentPart, decReader.view, partDataRemain;
      out, status := decReader.Read(n);
      if delivered < stop {
        if v0.Aligned? {
          FirstRead(sizes, reader.end, c, v0, stop, n, |out|, status == Fine);
        } else {
          DeadServes(sizes, reader.end, c, remain, stop);
        }
      }
      delivered := delivered + |out|;
      if status == Fine {
        partDataRemain := partDataRemain - |out|;
      }
    }

    /** Reads at most `n` bytes of the range. */
    method Read(n: nat, ghost stop: nat) returns (out: seq<byte>, status: Status)
      requires Running(stop) && 0 < n <= stop - delivered
      modifies this, reader, decReader
      ensures reader == old(reader) && (decReader == old(decReader) || fresh(decReader))
      ensures |out| <= n && out == reader.plain[old(delivered)..old(delivered) + |out|]
      ensures delivered == old(delivered) + |out| <= stop
      ensures delivered == stop ==> status != Broken && old(Serving(stop))
      ensures delivered < stop && status == Fine ==> out != [] && Running(stop) && Serving(stop) == old(Serving(stop))
      ensures delivered < stop && status != Fine ==> !old(Serving(stop)) || old(Spans(n))
      ensures old(Serving(stop)) && old(Spans(n)) ==> delivered < stop && status != Fine
    {
      if n < partDataRemain {
        out, status := ReadWithin(n, stop);
      } else {
        out, status := ReadAcross(n, stop);
      }
    }

    /** Attaches the encrypted payload and moves to the first byte of the range. */
    method SetReader(r: PayloadStream, ghost start: nat, ghost end: nat) returns (status: Status)
      requires Matches() && ValidRange(sizes, start, end) && currentPart == 0
      requires r.Valid() && r.sizes == sizes && r.pos == WindowStart(sizes, start) && r.end == WindowEnd(sizes, end)
      requires seqNumber == InPart(sizes, start) / BLOCK && skipLen == InPart(sizes, start) % BLOCK
      requires partDataRemain == FirstRemain(sizes, start, end) && encPartRangeLen == FirstWindow(sizes, start, end)
      modifies `reader, `decReader, `delivered, r
      ensures reader == r
      ensures status == Fine ==> Running(end + 1) && fresh(decReader) && delivered == start
      ensures status == Fine ==> (Serving(end + 1) <==> Serves(sizes, start, end))
      ensures status != Fine ==> !Serves(sizes, start, end)
    {
      hide Reach, EncSize, Serves, WillServe, WindowStart, WindowEnd, PartOf, Follows, Counted, InPart, FirstView,
        FirstRemain, FirstWindow, PlainStart;
      reader := r;
      ghost var first := FirstView(sizes, start, end);
      FirstReader(sizes, r.plain, start, end);
      FirstIff(sizes, start, end);
      FirstIsCounted(sizes, start, end);
      delivered := start;
      status := InitNextDecReader(Aligned(first.t, start - skipLen, first.cap));
    }
  }

  /** Decrypted and encrypted sizes of a stored object, and what its headers say about its parts. */
  datatype StoredObject = StoredObject(plain: seq<byte>, multipart: bool, sizes: seq<nat>)
  {
    ghost predicate Valid()
    {
      && WithinLimits(sizes)
      && (forall i :: 0 <= i < |sizes| - 1 ==> sizes[i] > 0)
      && |plain| == PlainStart(sizes, |sizes|)
      && (!multipart ==> sizes == [|plain|])
    }
  }

  /** The decrypter for an object: null when the range is reversed. */
  method GetDecrypter(obj: StoredObject, range: Option<Range>) returns (d: Decrypter?)
    requires obj.Valid()
    requires range.Some? && range.value.start <= range.value.end ==> range.value.end < |obj.plain|
    requires obj.multipart && range.None? ==> |obj.plain| > 0
    ensures d == null <==> range.Some? && range.value.start > range.value.end
    ensures d != null ==>
              && fresh(d) && d.Matches() && d.sizes == obj.sizes
              && d.currentPart == d.seqNumber == d.skipLen == d.offset == 0
              && d.rangeParam == (if obj.multipart && range.None? then Some(Range(0, |obj.plain| - 1)) else range)
  {
    var param := range;
    if obj.multipart && range.None? {
      param := Some(Range(0, Wrap(|obj.plain| - 1)));
      WrapIs(|obj.plain| - 1);
    }
    if param.Some? && param.value.start > param.value.end {
      return null;
    }
    if obj.multipart {
      d := new Decrypter(obj.sizes, param);
    } else {
      var encrypted := EncSize(|obj.plain|);  // the size of the stored payload
      DecSizeInvertsEncSize(|obj.plain|);
      d := new Decrypter([DecSize(encrypted)], param);
    }
  }

  /** The whole object as a range. */
  lemma WholeObject(obj: StoredObject)
    requires obj.Valid() && |obj.plain| > 0
    ensures var last := |obj.plain| - 1;
            && ValidRange(obj.sizes, 0, last) && Serves(obj.sizes, 0, last) && obj.plain[0..last + 1] == obj.plain
            && (!obj.multipart ==>
                 && WindowStart(obj.sizes, 0) == 0 && WindowEnd(obj.sizes, last) == EncSize(|obj.plain|)
                 && InPart(obj.sizes, 0) == 0 && FirstRemain(obj.sizes, 0, last) == |obj.plain|
                 && FirstWindow(obj.sizes, 0, last) == EncSize(|obj.plain|))
  {
  }

  /** What the client asked for. */
  ghost function Requested(obj: StoredObject, range: Option<Range>): seq<byte>
    requires range.Some? ==> range.value.start <= range.value.end < |obj.plain|
  {
    if range.None? then obj.plain else obj.plain[range.value.start..range.value.end + 1]
  }

  const COPY_BUFFER := 32 * 1024

  /**
   Copies a range of an encrypted object to the client. Everything the client asked for arrives, and
   nothing else, exactly if the sizes of the parts allow for the range; a whole object always arrives.
   */
  method GetObject(obj: StoredObject, range: Option<Range>)
    returns (written: seq<byte>, ok: bool, ghost steps: seq<Status>)
    requires obj.Valid()
    requires range.Some? && range.value.start <= range.value.end ==> range.value.end < |obj.plain|
    requires obj.multipart && range.None? ==> |obj.plain| > 0
    ensures range.Some? && range.value.start > range.value.end ==> !ok && written == []
    ensures range.None? ==> ok && written == obj.plain
    ensures range.Some? && range.value.start <= range.value.end ==>
              && ((ok && written == Requested(obj, range)) <==> Serves(obj.sizes, range.value.start, range.value.end))
              && written <= Requested(obj, range)
    ensures range.Some? && range.value.start <= range.value.end ==> Reported(ok, steps)
  {
    hide Serves, Requested, First, Last, ValidRange, WindowStart, WindowEnd, FirstRemain, FirstWindow, InPart;
    written, ok, steps := [], false, [];
    var d := Prepare(obj, range);
    if d == null {
      return;
    }
    if |obj.plain| == 0 {
      // an empty object: the decrypted length is zero and the copy loop has nothing to ask for
      return [], true, [];
    }
    written, ok, steps := Serve(d, obj, First(range), Last(obj, range));
    RangeServed(obj, range, written, ok);
  }

  /** What serving the range from its first to its last byte means for the one that was asked for. */
  lemma RangeServed(obj: StoredObject, range: Option<Range>, written: seq<byte>, ok: bool)
    requires obj.Valid() && |obj.plain| > 0
    requires range.Some? ==> range.value.start <= range.value.end < |obj.plain|
    requires var start, end := First(range), Last(obj, range);
             && ValidRange(obj.sizes, start, end) && written <= obj.plain[start..end + 1]
             && (ok && written == obj.plain[start..end + 1] <==> Serves(obj.sizes, start, end))
    ensures range.None? ==> ok && written == obj.plain
    ensures range.Some? ==>
              && ((ok && written == Requested(obj, range)) <==> Serves(obj.sizes, range.value.start, range.value.end))
              && written <= Requested(obj, range)
  {
    hide Serves, ValidRange;
    if range.None? {
      WholeObject(obj);
    }
  }

  ghost function First(range: Option<Range>): nat
  {
    if range.None? then 0 else range.value.start
  }

  ghost function Last(obj: StoredObject, range: Option<Range>): nat
    requires |obj.plain| > 0
  {
    if range.None? then |obj.plain| - 1 else range.value.end
  }

  /** A decrypter for the range with its window and counters set. */
  method Prepare(obj: StoredObject, range: Option<Range>) returns (d: Decrypter?)
    requires obj.Valid()
    requires range.Some? && range.value.start <= range.value.end ==> range.value.end < |obj.plain|
    requires obj.multipart && range.None? ==> |obj.plain| > 0
    ensures d == null <==> range.Some? && range.value.start > range.value.end
    ensures d != null ==> fresh(d) && d.Matches() && d.sizes == obj.sizes && d.currentPart == 0
    ensures d != null && |obj.plain| == 0 ==> d.decLen == 0
    ensures d != null && |obj.plain| > 0 ==>
              var start, end := First(range), Last(obj, range);
              && ValidRange(d.sizes, start, end) && d.decLen == end - start + 1
              && d.offset == WindowStart(d.sizes, start) && d.offset + d.length == WindowEnd(d.sizes, end)
              && d.seqNumber == InPart(d.sizes, start) / BLOCK && d.skipLen == InPart(d.sizes, start) % BLOCK
              && d.partDataRemain == FirstRemain(d.sizes, start, end)
              && d.encPartRangeLen == FirstWindow(d.sizes, start, end)
  {
    hide FirstRemain, FirstWindow, WindowStart, WindowEnd, InPart, EncSize;
    d := GetDecrypter(obj, range);
    if d != null {
      if |obj.plain| > 0 {
        WholeObject(obj);
      }
      d.InitRangeParams();
    }
  }

  /** Reads the encrypted window and copies the decrypted range. */
  method Serve(d: Decrypter, obj: StoredObject, ghost start: nat, ghost end: nat)
    returns (written: seq<byte>, ok: bool, ghost steps: seq<Status>)
    requires obj.Valid() && ValidRange(obj.sizes, start, end)
    requires d.Matches() && d.sizes == obj.sizes && d.currentPart == 0 && d.decLen == end - start + 1
    requires d.offset == WindowStart(d.sizes, start) && d.offset + d.length == WindowEnd(d.sizes, end)
    requires d.seqNumber == InPart(d.sizes, start) / BLOCK && d.skipLen == InPart(d.sizes, start) % BLOCK
    requires d.partDataRemain == FirstRemain(d.sizes, start, end)
    requires d.encPartRangeLen == FirstWindow(d.sizes, start, end)
    modifies d
    ensures (ok && written == obj.plain[start..end + 1]) <==> Serves(obj.sizes, start, end)
    ensures written <= obj.plain[start..end + 1] && Reported(ok, steps)
  {
    hide Serves, FirstRemain, FirstWindow, WindowStart, WindowEnd, InPart, EncSize, WillServe, Counted, Follows;
    WindowBounds(obj.sizes, end);
    WindowOrdered(obj.sizes, start, end);
    WindowBounds(obj.sizes, start);
    var bufSize := if 0 < d.length < COPY_BUFFER then d.length else COPY_BUFFER;
    var payload := new PayloadStream(obj.plain, obj.sizes, d.offset, d.offset + d.length);
    var status := d.SetReader(payload, start, end);
    if status != Fine {
      return [], false, [status];
    }
    written, ok, steps := CopyRange(d, bufSize, start, end);
    steps := [status] + steps;
  }

  /** Success is reported exactly if the reader could be attached and no read of it broke. */
  ghost predicate Reported(ok: bool, steps: seq<Status>)
  {
    ok <==> (steps != [] ==> steps[0] == Fine && Broken !in steps)
  }

  /** The copy loop over a reader limited to the decrypted length. */
  method CopyRange(d: Decrypter, bufSize: nat, ghost start: nat, ghost end: nat)
    returns (written: seq<byte>, ok: bool, ghost steps: seq<Status>)
    requires d.Running(end + 1) && d.delivered == start <= end && 0 < bufSize < BLOCK
    requires d.decLen == end - start + 1
    modifies d, d.reader, d.decReader
    ensures (ok && written == old(d.reader).plain[start..end + 1]) <==> old(d.Serving(end + 1))
    ensures end < |old(d.reader).plain| && written <= old(d.reader).plain[start..end + 1]
    ensures ok <==> Broken !in steps
  {
    hide Counted, Follows, WillServe, WindowEnd, Decrypter.Spans, Decrypter.Serving;
    ghost var stop := end + 1;
    ghost var serving := d.Serving(stop);
    ghost var plain := d.reader.plain;
    written, ok, steps := [], true, [];
    var left := d.decLen;
    var status := Fine;
    while left > 0
      invariant left == stop - d.delivered && d.delivered == start + |written| <= stop <= |plain|
      invariant written == plain[start..d.delivered]
      invariant status == Fine && ok && Broken !in steps
      invariant d.reader == old(d.reader) && (d.decReader == old(d.decReader) || fresh(d.decReader))
      invariant left > 0 ==> d.Running(stop) && d.Serving(stop) == serving
      invariant left == 0 ==> serving
    {
      var out;
      ghost var before := d.delivered;
      d.ShortReads(Min(bufSize, left));
      out, status := d.Read(Min(bufSize, left), stop);
      steps := steps + [status];
      Decrypter.Meet(plain, start, before, d.delivered);
      written := written + out;
      left := left - |out|;
      if status != Fine {
        PrefixOfRange(plain, start, d.delivered, stop);
        // a reader that ended early is not told from one that is through
        ok := status == Ended;
        return;
      }
    }
  }

  lemma PrefixOfRange(plain: seq<byte>, start: nat, k: nat, stop: nat)
    requires start <= k <= stop <= |plain|
    ensures plain[start..k] <= plain[start..stop] && (plain[start..k] == plain[start..stop] <==> k == stop)
  {
  }
}