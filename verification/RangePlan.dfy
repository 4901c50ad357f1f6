/**
 Which encrypted bytes a plaintext range needs, which ranges the reader of a multipart object serves,
 and why: the pure side of the range reader.
 */
module RangePlan {
  import opened Dare
  import opened PackageReaders
  import opened Wrappers

  /** A range inside an object whose parts, the last one excepted, are not empty. */
  ghost predicate ValidRange(sizes: seq<nat>, start: nat, end: nat)
  {
    && WithinLimits(sizes)
    && (forall i :: 0 <= i < |sizes| - 1 ==> sizes[i] > 0)
    && start <= end < PlainStart(sizes, |sizes|)
  }

  /** Offset of plaintext byte `pos` inside its part. */
  function InPart(sizes: seq<nat>, pos: nat): (r: nat)
    requires pos < PlainStart(sizes, |sizes|)
    ensures |sizes| > 0 && r < sizes[PartOf(sizes, pos, 0)]
    ensures pos == PlainStart(sizes, PartOf(sizes, pos, 0)) + r
  {
    pos - PlainStart(sizes, PartOf(sizes, pos, 0))
  }

  /** Encrypted offset of the first byte of the package that holds plaintext byte `pos`. */
  function WindowStart(sizes: seq<nat>, pos: nat): nat
    requires pos < PlainStart(sizes, |sizes|)
  {
    EncStart(sizes, PartOf(sizes, pos, 0)) + InPart(sizes, pos) / BLOCK * PACKAGE
  }

  /** Encrypted offset just behind the package that holds plaintext byte `pos`. */
  function WindowEnd(sizes: seq<nat>, pos: nat): nat
    requires pos < PlainStart(sizes, |sizes|)
  {
    var t := PartOf(sizes, pos, 0);
    EncStart(sizes, t) + PackageEncEnd(sizes[t], InPart(sizes, pos) / BLOCK)
  }

  /** How many bytes of the part that holds `pos` end with the package that holds it. */
  function Needed(sizes: seq<nat>, pos: nat): nat
    requires pos < PlainStart(sizes, |sizes|)
  {
    PackagePlainEnd(sizes[PartOf(sizes, pos, 0)], InPart(sizes, pos) / BLOCK)
  }

  lemma WindowBounds(sizes: seq<nat>, pos: nat)
    requires pos < PlainStart(sizes, |sizes|)
    ensures var t := PartOf(sizes, pos, 0);
            && EncStart(sizes, t) <= WindowStart(sizes, pos) < WindowEnd(sizes, pos) <= EncStart(sizes, t + 1)
            && EncStart(sizes, t + 1) <= EncStart(sizes, |sizes|)
            && PlainStart(sizes, t + 1) <= PlainStart(sizes, |sizes|)
  {
    var t := PartOf(sizes, pos, 0);
    StartsMonotone(sizes, t + 1, |sizes|);
    BlocksBelow(sizes[t], InPart(sizes, pos) / BLOCK);
  }

  /** The parts and packages of a range come in the order of its ends. */
  lemma WindowOrdered(sizes: seq<nat>, start: nat, end: nat)
    requires start <= end < PlainStart(sizes, |sizes|)
    ensures PartOf(sizes, start, 0) <= PartOf(sizes, end, 0)
    ensures WindowStart(sizes, start) <= WindowStart(sizes, end)
    ensures WindowEnd(sizes, start) <= WindowEnd(sizes, end)
  {
    hide EncSize, PartOf;
    var ps, pe := PartOf(sizes, start, 0), PartOf(sizes, end, 0);
    WindowBounds(sizes, start);
    WindowBounds(sizes, end);
    if pe < ps {
      StartsMonotone(sizes, pe + 1, ps);
    } else if ps < pe {
      StartsMonotone(sizes, ps + 1, pe);
    } else {
      assert InPart(sizes, start) <= InPart(sizes, end);
    }
  }

  /**
   The ranges that reach the client intact. The reader starts counting parts at the first one although
   the data starts in part `ps`, so the sizes it counts with must agree with those of the parts it
   really passes, and the last one it counts with must cover the packages needed of the last part. A
   range inside one part is also served when the first part ends in a block before the range: the
   counters then wrap around and stop limiting anything.
   */
  ghost predicate Serves(sizes: seq<nat>, start: nat, end: nat)
    requires ValidRange(sizes, start, end)
  {
    var ps, pe := PartOf(sizes, start, 0), PartOf(sizes, end, 0);
    || ServesFrom(sizes, end, 0, ps)
    || (ps == pe && sizes[0] < InPart(sizes, start) / BLOCK * BLOCK)
  }

  /** Counting with part `c` while standing at part `t` works out to the end of the range. */
  ghost predicate ServesFrom(sizes: seq<nat>, end: nat, c: nat, t: nat)
    requires end < PlainStart(sizes, |sizes|)
  {
    var pe := PartOf(sizes, end, 0);
    && c <= t <= pe
    && (forall i :: t <= i < pe ==> sizes[c + i - t] == sizes[i])
    && sizes[c + pe - t] >= Needed(sizes, end)
  }

  /** What a reader over an allotment of `room` encrypted bytes of part `t` is going to produce. */
  function PartView(sizes: seq<nat>, t: nat, x: nat, room: nat): View
    requires t < |sizes|
  {
    Aligned(t, x, PlainStart(sizes, t) + Reach(sizes[t], room))
  }

  function Room(sizes: seq<nat>, t: nat, encSize: nat, srcEnd: nat): nat
    requires t < |sizes| && EncStart(sizes, t) <= srcEnd
  {
    Min(encSize, srcEnd - EncStart(sizes, t))
  }

  /**
   The run from here delivers everything before `stop`: the current reader yields the `remain` bytes it
   is asked for, these end with its part, and the next reader goes on in the same way.
   */
  ghost predicate WillServe(sizes: seq<nat>, srcEnd: nat, c: nat, remain: nat, view: View, stop: nat)
    decreases |sizes| - c
  {
    match view
    case Dead => false
    case Aligned(t, x, cap) =>
      if x + remain >= stop then stop <= cap
      else
        && x + remain <= cap
        && c + 1 < |sizes| && t + 1 < |sizes|
        && x + remain == PlainStart(sizes, t + 1)
        && EncStart(sizes, t + 1) <= srcEnd
        && WillServe(sizes, srcEnd, c + 1, sizes[c + 1],
             PartView(sizes, t + 1, x + remain, Room(sizes, t + 1, EncSize(sizes[c + 1]), srcEnd)), stop)
  }

  /** The reader's counters fit the part it counts with, unless the range ends first. */
  ghost predicate Counted(sizes: seq<nat>, srcEnd: nat, c: nat, remain: nat, view: View, stop: nat)
  {
    && c < |sizes|
    && (view.Aligned? ==>
          && view.t < |sizes| && EncStart(sizes, view.t) <= srcEnd && view.x <= stop
          && (view.x + remain >= stop ||
              (&& view.x + remain == PlainStart(sizes, view.t) + sizes[c]
               && view == PartView(sizes, view.t, view.x, Room(sizes, view.t, EncSize(sizes[c]), srcEnd)))))
    && (view.Dead? ==> remain > 0 || c + 1 == |sizes|)
  }

  // ---- arithmetic of one part ----

  lemma EncSizeMonotone(a: nat, b: nat)
    requires a <= b
    ensures EncSize(a) <= EncSize(b)
  {
    if a < b { EncSizeStrictlyMonotone(a, b); }
  }

  /** Room for `v` plaintext bytes reaches at most `v` bytes, and `v` only at a package border or the end. */
  lemma ReachOfRoom(size: nat, v: nat, room: nat)
    requires room <= EncSize(v)
    ensures Reach(size, room) <= v
    ensures v < size && Reach(size, room) == v ==> v % BLOCK == 0
  {
    hide EncSize;
    EncSizeFloor(v);
    if room < EncSize(size) {
      assert room / PACKAGE <= EncSize(v) / PACKAGE;
    } else {
      if v < size { EncSizeStrictlyMonotone(v, size); }
      ReachInPart(size, room);
    }
  }

  lemma EncSizeFloor(v: nat)
    ensures EncSize(v) / PACKAGE == v / BLOCK
    ensures EncSize(v) / PACKAGE * BLOCK <= v
    ensures EncSize(v / BLOCK * BLOCK) == v / BLOCK * PACKAGE
  {
    var q, m := v / BLOCK, v % BLOCK;
    assert v == q * BLOCK + m;
    assert q * BLOCK / BLOCK == q && q * BLOCK % BLOCK == 0;
    if m > 0 {
      assert EncSize(v) == q * PACKAGE + (m + OVERHEAD);
    }
  }

  /** A part counted as `v` bytes yields `r` bytes of the real one exactly if it covers their packages. */
  lemma ReachNeeds(size: nat, v: nat, k: nat, r: nat)
    requires k * BLOCK < r <= PackagePlainEnd(size, k)
    ensures r <= Reach(size, Min(EncSize(v), PackageEncEnd(size, k))) <==> PackagePlainEnd(size, k) <= v
  {
    var need, encNeed := PackagePlainEnd(size, k), PackageEncEnd(size, k);
    NeedIsEncoded(size, k);
    if need <= v {
      EncSizeMonotone(need, v);
      ReachExact(size, k);
    } else {
      EncSizeStrictlyMonotone(v, need);
      EncSizeMonotone(need, size);
      ReachShort(size, v, k);
    }
  }

  lemma NeedsMore(size: nat, a: nat)
    requires a < size
    ensures a / BLOCK * BLOCK < a + 1 <= PackagePlainEnd(size, a / BLOCK) <= size
  {
  }

  lemma NeedIsEncoded(size: nat, k: nat)
    requires k * BLOCK < size
    ensures PackageEncEnd(size, k) == EncSize(PackagePlainEnd(size, k))
  {
    if (k + 1) * BLOCK <= size {
      EncSizeFloor((k + 1) * BLOCK);
      EncSizeMonotone((k + 1) * BLOCK, size);
    } else {
      BlocksAtLeast(size, k + 1);
    }
  }

  lemma ReachExact(size: nat, k: nat)
    requires k * BLOCK < size
    ensures Reach(size, PackageEncEnd(size, k)) == PackagePlainEnd(size, k)
  {
    if (k + 1) * BLOCK < size {
      BlocksBelow(size, k + 1);
      assert (k + 1) * PACKAGE / PACKAGE == k + 1;
    } else {
      BlocksAtLeast(size, k + 1);
    }
  }

  lemma ReachShort(size: nat, v: nat, k: nat)
    requires k * BLOCK < size && v < PackagePlainEnd(size, k)
    ensures Reach(size, EncSize(v)) <= k * BLOCK
  {
    EncSizeStrictlyMonotone(v, size);
    EncSizeFloor(v);
    assert v / BLOCK <= k;
  }

  // ---- the closed form of a run ----

  /** What remains of the range in its last part. */
  lemma LastPart(sizes: seq<nat>, end: nat, c: nat, x: nat, remain: nat)
    requires ValidRange(sizes, end, end) && c < |sizes|
    requires var t := PartOf(sizes, end, 0);
             PlainStart(sizes, t) <= x <= end && x + remain == PlainStart(sizes, t) + sizes[c]
    ensures var t := PartOf(sizes, end, 0);
            EncStart(sizes, t) <= WindowEnd(sizes, end) &&
            (WillServe(sizes, WindowEnd(sizes, end), c, remain,
               PartView(sizes, t, x, Room(sizes, t, EncSize(sizes[c]), WindowEnd(sizes, end))), end + 1)
             <==> Needed(sizes, end) <= sizes[c])
  {
    hide Reach, EncSize, PartOf, PackageEncEnd, PackagePlainEnd;
    var t := PartOf(sizes, end, 0);
    var a := InPart(sizes, end);
    WindowBounds(sizes, end);
    NeedsMore(sizes[t], a);
    ReachNeeds(sizes[t], sizes[c], a / BLOCK, a + 1);
    assert a + 1 <= Needed(sizes, end);
    assert PlainStart(sizes, t + 1) == PlainStart(sizes, t) + sizes[t];
  }

  /** A part before the last one must be counted exactly. */
  lemma EarlierPart(sizes: seq<nat>, srcEnd: nat, end: nat, c: nat, t: nat, x: nat, remain: nat)
    requires ValidRange(sizes, end, end) && c <= t < PartOf(sizes, end, 0)
    requires EncStart(sizes, t + 1) <= srcEnd && EncStart(sizes, t) <= srcEnd
    requires PlainStart(sizes, t) <= x < PlainStart(sizes, t + 1) && x + remain == PlainStart(sizes, t) + sizes[c]
    ensures WillServe(sizes, srcEnd, c, remain, PartView(sizes, t, x, Room(sizes, t, EncSize(sizes[c]), srcEnd)),
                      end + 1)
            <==> sizes[c] == sizes[t] &&
                 WillServe(sizes, srcEnd, c + 1, sizes[c + 1],
                   PartView(sizes, t + 1, PlainStart(sizes, t + 1),
                            Room(sizes, t + 1, EncSize(sizes[c + 1]), srcEnd)), end + 1)
  {
    hide Reach, PartOf, EncSize, EncStart;
    assert EncStart(sizes, t + 1) == EncStart(sizes, t) + EncSize(sizes[t]) by { EncStartNext(sizes, t); }
    StartsMonotone(sizes, t + 1, PartOf(sizes, end, 0));
    ReachInPart(sizes[t], Room(sizes, t, EncSize(sizes[c]), srcEnd));
    if sizes[c] == sizes[t] {
      assert Room(sizes, t, EncSize(sizes[c]), srcEnd) == EncSize(sizes[t]);
      assert Reach(sizes[t], EncSize(sizes[t])) == sizes[t] by { WholePart(sizes[t]); }
    }
  }

  lemma EncStartNext(sizes: seq<nat>, t: nat)
    requires t < |sizes|
    ensures EncStart(sizes, t + 1) == EncStart(sizes, t) + EncSize(sizes[t])
  {
  }

  lemma WholePart(size: nat)
    ensures Reach(size, EncSize(size)) == size
  {
  }

  /** From the start of a part on, the run succeeds exactly if the counted sizes agree with the real ones. */
  lemma {:induction false} FreshIff(sizes: seq<nat>, end: nat, c: nat, t: nat)
    requires ValidRange(sizes, end, end) && c <= t <= PartOf(sizes, end, 0)
    ensures EncStart(sizes, t) <= WindowEnd(sizes, end)
    ensures WillServe(sizes, WindowEnd(sizes, end), c, sizes[c],
              PartView(sizes, t, PlainStart(sizes, t),
                       Room(sizes, t, EncSize(sizes[c]), WindowEnd(sizes, end))), end + 1)
            <==> ServesFrom(sizes, end, c, t)
    decreases PartOf(sizes, end, 0) - t
  {
    hide WillServe, Reach, EncSize, WindowEnd, Needed, PartOf, PartView, Room, ServesFrom;
    var pe := PartOf(sizes, end, 0);
    WindowBounds(sizes, end);
    StartsMonotone(sizes, t, pe);
    if t == pe {
      LastPart(sizes, end, c, PlainStart(sizes, t), sizes[c]);
      ServesFromLast(sizes, end, c);
    } else {
      StartsMonotone(sizes, t + 1, pe);
      EarlierPart(sizes, WindowEnd(sizes, end), end, c, t, PlainStart(sizes, t), sizes[c]);
      FreshIff(sizes, end, c + 1, t + 1);
      ServesFromStep(sizes, end, c, t);
    }
  }

  lemma ServesFromStep(sizes: seq<nat>, end: nat, c: nat, t: nat)
    requires end < PlainStart(sizes, |sizes|) && c <= t < PartOf(sizes, end, 0)
    ensures ServesFrom(sizes, end, c, t) <==> sizes[c] == sizes[t] && ServesFrom(sizes, end, c + 1, t + 1)
  {
    var pe := PartOf(sizes, end, 0);
    if sizes[c] == sizes[t] && ServesFrom(sizes, end, c + 1, t + 1) {
      forall i | t <= i < pe ensures sizes[c + i - t] == sizes[i] {
        if i > t { assert sizes[(c + 1) + i - (t + 1)] == sizes[i]; }
      }
    }
    if ServesFrom(sizes, end, c, t) {
      forall i | t + 1 <= i < pe ensures sizes[(c + 1) + i - (t + 1)] == sizes[i] {
        assert sizes[c + i - t] == sizes[i];
      }
    }
  }

  /** How much the first reader is asked for, as the counters of the first part work out. */
  function FirstRemain(sizes: seq<nat>, start: nat, end: nat): nat
    requires ValidRange(sizes, start, end)
  {
    var a := InPart(sizes, start);
    if sizes[0] < a then end - start + 1 else Min(end - start + 1, sizes[0] - a)
  }

  /** How many encrypted bytes the first reader may take. */
  function FirstWindow(sizes: seq<nat>, start: nat, end: nat): nat
    requires ValidRange(sizes, start, end)
    ensures WindowStart(sizes, start) <= WindowEnd(sizes, end)
  {
    WindowOrdered(sizes, start, end);
    WindowBounds(sizes, start);
    var skipped := InPart(sizes, start) / BLOCK * PACKAGE;
    var length := WindowEnd(sizes, end) - WindowStart(sizes, start);
    if EncSize(sizes[0]) < skipped then length else Min(length, EncSize(sizes[0]) - skipped)
  }

  /** The view of the first reader once the bytes before the range are skipped. */
  function FirstView(sizes: seq<nat>, start: nat, end: nat): View
    requires ValidRange(sizes, start, end)
  {
    PartView(sizes, PartOf(sizes, start, 0), start,
      InPart(sizes, start) / BLOCK * PACKAGE + FirstWindow(sizes, start, end))
  }

  /** The counters of the first part, compared with the offset of the range in its own part. */
  lemma FirstCounters(size: nat, a: nat)
    ensures size < a / BLOCK * BLOCK <==> EncSize(size) < a / BLOCK * PACKAGE
    ensures a <= size ==> a / BLOCK * PACKAGE <= EncSize(size)
  {
    EncSizeFloor(a);
    var b := a / BLOCK * BLOCK;
    if size < b { EncSizeStrictlyMonotone(size, b); } else { EncSizeMonotone(b, size); }
  }

  lemma FirstIsCounted(sizes: seq<nat>, start: nat, end: nat)
    requires ValidRange(sizes, start, end)
    ensures Counted(sizes, WindowEnd(sizes, end), 0, FirstRemain(sizes, start, end), FirstView(sizes, start, end),
                    end + 1)
  {
    hide Reach, EncSize, PackageEncEnd, PartOf;
    WindowOrdered(sizes, start, end);
    WindowBounds(sizes, start);
    FirstCounters(sizes[0], InPart(sizes, start));
  }

  /**
   Whether the first reader gets past the bytes before the range and everything then works out is decided
   by the sizes alone.
   */
  lemma FirstIff(sizes: seq<nat>, start: nat, end: nat)
    requires ValidRange(sizes, start, end)
    ensures (start <= FirstView(sizes, start, end).cap &&
             WillServe(sizes, WindowEnd(sizes, end), 0, FirstRemain(sizes, start, end), FirstView(sizes, start, end),
                       end + 1))
            <==> Serves(sizes, start, end)
  {
    hide Reach, EncSize, Needed, PackageEncEnd, PartOf;
    var ps, pe, a := PartOf(sizes, start, 0), PartOf(sizes, end, 0), InPart(sizes, start);
    var srcEnd, view, remain := WindowEnd(sizes, end), FirstView(sizes, start, end), FirstRemain(sizes, start, end);
    WindowOrdered(sizes, start, end);
    WindowBounds(sizes, start);
    WindowBounds(sizes, end);
    FirstCounters(sizes[0], a);
    if start + remain >= end + 1 {
      FirstCovers(sizes, start, end);
    } else {
      FirstExact(sizes, start, end);
    }
  }

  lemma ServingReaches(sizes: seq<nat>, srcEnd: nat, c: nat, remain: nat, view: View, stop: nat)
    requires WillServe(sizes, srcEnd, c, remain, view, stop)
    ensures view.Aligned? && (view.x <= stop ==> view.x <= view.cap)
  {
  }

  /** The case in which the counter of the first part ends before the range does. */
  lemma FirstExact(sizes: seq<nat>, start: nat, end: nat)
    requires ValidRange(sizes, start, end)
    requires FirstRemain(sizes, start, end) < end - start + 1
    ensures WillServe(sizes, WindowEnd(sizes, end), 0, FirstRemain(sizes, start, end), FirstView(sizes, start, end),
                      end + 1)
            <==> Serves(sizes, start, end)
    ensures WillServe(sizes, WindowEnd(sizes, end), 0, FirstRemain(sizes, start, end), FirstView(sizes, start, end),
                      end + 1)
            ==> start <= FirstView(sizes, start, end).cap
  {
    hide WillServe, Serves, FirstView, FirstRemain, PartView, Room, WindowEnd, EncStart, EncSize, PartOf, InPart;
    var remain := FirstRemain(sizes, start, end);
    FirstViewIs(sizes, start, end);
    FirstExactCounted(sizes, start, end, remain);
    ViewStartsAt(sizes, PartOf(sizes, start, 0), start,
                 Room(sizes, PartOf(sizes, start, 0), EncSize(sizes[0]), WindowEnd(sizes, end)));
    if WillServe(sizes, WindowEnd(sizes, end), 0, remain, FirstView(sizes, start, end), end + 1) {
      ServingReaches(sizes, WindowEnd(sizes, end), 0, remain, FirstView(sizes, start, end), end + 1);
    }
  }

  lemma ViewStartsAt(sizes: seq<nat>, t: nat, x: nat, room: nat)
    requires t < |sizes|
    ensures PartView(sizes, t, x, room).Aligned? && PartView(sizes, t, x, room).x == x
  {
  }

  /** What the first reader produces when its counter ends before the range does. */
  lemma FirstViewIs(sizes: seq<nat>, start: nat, end: nat)
    requires ValidRange(sizes, start, end) && FirstRemain(sizes, start, end) < end - start + 1
    ensures var ps, srcEnd := PartOf(sizes, start, 0), WindowEnd(sizes, end);
            && ps <= PartOf(sizes, end, 0) && EncStart(sizes, ps) <= srcEnd
            && FirstView(sizes, start, end) == PartView(sizes, ps, start, Room(sizes, ps, EncSize(sizes[0]), srcEnd))
            && FirstRemain(sizes, start, end) == sizes[0] - InPart(sizes, start)
  {
    hide Reach, EncSize, Needed, PackageEncEnd, PartOf;
    WindowOrdered(sizes, start, end);
    WindowBounds(sizes, start);
    FirstCounters(sizes[0], InPart(sizes, start));
  }

  /** The same in terms of the counters. */
  lemma FirstExactCounted(sizes: seq<nat>, start: nat, end: nat, remain: nat)
    requires ValidRange(sizes, start, end) && remain == sizes[0] - InPart(sizes, start) < end - start + 1
    requires PartOf(sizes, start, 0) <= PartOf(sizes, end, 0)
    requires EncStart(sizes, PartOf(sizes, start, 0)) <= WindowEnd(sizes, end)
    ensures var ps, srcEnd := PartOf(sizes, start, 0), WindowEnd(sizes, end);
            WillServe(sizes, srcEnd, 0, remain, PartView(sizes, ps, start, Room(sizes, ps, EncSize(sizes[0]), srcEnd)),
                      end + 1)
            <==> Serves(sizes, start, end)
  {
    hide WillServe, Reach, EncSize, Needed, PackageEncEnd, PartOf, Serves, ServesFrom;
    var ps, pe := PartOf(sizes, start, 0), PartOf(sizes, end, 0);
    ServesExactly(sizes, start, end);
    if ps == pe {
      LastPart(sizes, end, 0, start, remain);
      ServesFromLast(sizes, end, 0);
    } else {
      StartsMonotone(sizes, ps + 1, pe);
      EarlierPart(sizes, WindowEnd(sizes, end), end, 0, ps, start, remain);
      FreshIff(sizes, end, 1, ps + 1);
      ServesFromStep(sizes, end, 0, ps);
    }
  }

  /** While the first part is no shorter than the offset in the part of the range, nothing wraps. */
  lemma ServesExactly(sizes: seq<nat>, start: nat, end: nat)
    requires ValidRange(sizes, start, end) && InPart(sizes, start) <= sizes[0]
    ensures Serves(sizes, start, end) <==> ServesFrom(sizes, end, 0, PartOf(sizes, start, 0))
  {
    hide ServesFrom, PartOf;
    var a := InPart(sizes, start);
    assert a / BLOCK * BLOCK <= a;
  }

  lemma ServesFromLast(sizes: seq<nat>, end: nat, c: nat)
    requires end < PlainStart(sizes, |sizes|) && c <= PartOf(sizes, end, 0)
    ensures ServesFrom(sizes, end, c, PartOf(sizes, end, 0)) <==> sizes[c] >= Needed(sizes, end)
  {
    hide PartOf, Needed;
  }

  /** The case in which the counter of the first part does not end before the range does. */
  lemma FirstCovers(sizes: seq<nat>, start: nat, end: nat)
    requires ValidRange(sizes, start, end)
    requires FirstRemain(sizes, start, end) == end - start + 1
    ensures end + 1 <= FirstView(sizes, start, end).cap <==> Serves(sizes, start, end)
  {
    hide Reach, EncSize, PartOf, Serves, FirstView, FirstWindow, FirstRemain;
    WindowOrdered(sizes, start, end);
    if PartOf(sizes, start, 0) < PartOf(sizes, end, 0) {
      FirstCoversBefore(sizes, start, end);
    } else {
      FirstCoversWithin(sizes, start, end);
    }
  }

  /** A range over several parts is not covered by the first reader. */
  lemma FirstCoversBefore(sizes: seq<nat>, start: nat, end: nat)
    requires ValidRange(sizes, start, end) && FirstRemain(sizes, start, end) == end - start + 1
    requires PartOf(sizes, start, 0) < PartOf(sizes, end, 0)
    ensures FirstView(sizes, start, end).cap < end + 1 && !Serves(sizes, start, end)
  {
    hide Reach, EncSize, PartOf, ServesFrom, WindowStart, WindowEnd;
    var ps, pe, a := PartOf(sizes, start, 0), PartOf(sizes, end, 0), InPart(sizes, start);
    StartsMonotone(sizes, ps + 1, pe);
    ReachInPart(sizes[ps], a / BLOCK * PACKAGE + FirstWindow(sizes, start, end));
    assert sizes[0] != sizes[ps];
    ServesFromStep(sizes, end, 0, ps);
  }

  lemma FirstCoversWithin(sizes: seq<nat>, start: nat, end: nat)
    requires ValidRange(sizes, start, end) && PartOf(sizes, start, 0) == PartOf(sizes, end, 0)
    ensures end + 1 <= FirstView(sizes, start, end).cap <==> Serves(sizes, start, end)
  {
    hide Reach, EncSize, PartOf, ServesFrom, FirstWindow, PackageEncEnd, PackagePlainEnd;
    var ps, a, z := PartOf(sizes, start, 0), InPart(sizes, start), InPart(sizes, end);
    FirstCounters(sizes[0], a);
    ServesFromLast(sizes, end, 0);
    FirstRoom(sizes, start, end);
    NeedsMore(sizes[ps], z);
    if EncSize(sizes[0]) < a / BLOCK * PACKAGE {
      ReachExact(sizes[ps], z / BLOCK);
    } else {
      ReachNeeds(sizes[ps], sizes[0], z / BLOCK, z + 1);
    }
  }

  /** How much of its part a first reader may take that is also the last one. */
  lemma FirstRoom(sizes: seq<nat>, start: nat, end: nat)
    requires ValidRange(sizes, start, end) && PartOf(sizes, start, 0) == PartOf(sizes, end, 0)
    ensures var skipped := InPart(sizes, start) / BLOCK * PACKAGE;
            var needed := PackageEncEnd(sizes[PartOf(sizes, end, 0)], InPart(sizes, end) / BLOCK);
            skipped + FirstWindow(sizes, start, end) ==
            if EncSize(sizes[0]) < skipped then needed else Min(EncSize(sizes[0]), needed)
  {
    hide EncSize, PartOf, PackageEncEnd;
  }

  // ---- the window ----

  /** Some package starts at encrypted offset `enc` and plaintext offset `plain`. */
  ghost predicate StartsPackage(sizes: seq<nat>, enc: nat, plain: nat, t: nat, q: nat)
  {
    && t < |sizes| && q * BLOCK < sizes[t]
    && enc == EncStart(sizes, t) + q * PACKAGE && plain == PlainStart(sizes, t) + q * BLOCK
  }

  /** Some package ends at encrypted offset `enc` and plaintext offset `plain`. */
  ghost predicate EndsPackage(sizes: seq<nat>, enc: nat, plain: nat, t: nat, q: nat)
  {
    && t < |sizes| && q * BLOCK < sizes[t]
    && enc == EncStart(sizes, t) + PackageEncEnd(sizes[t], q)
    && plain == PlainStart(sizes, t) + PackagePlainEnd(sizes[t], q)
  }

  /** The window of a range consists of whole packages that cover the range. */
  lemma WindowIsAligned(sizes: seq<nat>, start: nat, end: nat)
    requires start <= end < PlainStart(sizes, |sizes|)
    ensures exists plain: nat, t: nat, q: nat ::
              StartsPackage(sizes, WindowStart(sizes, start), plain, t, q) && plain <= start
    ensures exists plain: nat, t: nat, q: nat :: EndsPackage(sizes, WindowEnd(sizes, end), plain, t, q) && end < plain
  {
    var s, a := PartOf(sizes, start, 0), InPart(sizes, start);
    assert StartsPackage(sizes, WindowStart(sizes, start), PlainStart(sizes, s) + a / BLOCK * BLOCK, s, a / BLOCK);
    var t, z := PartOf(sizes, end, 0), InPart(sizes, end);
    assert EndsPackage(sizes, WindowEnd(sizes, end), PlainStart(sizes, t) + PackagePlainEnd(sizes[t], z / BLOCK), t,
                       z / BLOCK);
  }

  /** No smaller window of whole packages covers the range. */
  lemma WindowIsSmallest(sizes: seq<nat>, start: nat, end: nat, enc: nat, plain: nat, t: nat, q: nat)
    requires start <= end < PlainStart(sizes, |sizes|)
    ensures StartsPackage(sizes, enc, plain, t, q) && plain <= start ==> enc <= WindowStart(sizes, start)
    ensures EndsPackage(sizes, enc, plain, t, q) && end < plain ==> WindowEnd(sizes, end) <= enc
  {
    if StartsPackage(sizes, enc, plain, t, q) && plain <= start {
      StartsBefore(sizes, start, enc, plain, t, q);
    }
    if EndsPackage(sizes, enc, plain, t, q) && end < plain {
      EndsAfter(sizes, end, enc, plain, t, q);
    }
  }

  lemma StartsBefore(sizes: seq<nat>, pos: nat, enc: nat, plain: nat, t: nat, q: nat)
    requires pos < PlainStart(sizes, |sizes|)
    requires StartsPackage(sizes, enc, plain, t, q) && plain <= pos
    ensures enc <= WindowStart(sizes, pos)
  {
    hide EncSize, PartOf;
    var s, a := PartOf(sizes, pos, 0), InPart(sizes, pos);
    BlocksBelow(sizes[t], q);
    if t < s {
      StartsMonotone(sizes, t + 1, s);
    } else if s < t {
      StartsMonotone(sizes, s + 1, t);
    } else {
      assert q * BLOCK <= a;
      assert q <= a / BLOCK;
    }
  }

  lemma EndsAfter(sizes: seq<nat>, pos: nat, enc: nat, plain: nat, t: nat, q: nat)
    requires pos < PlainStart(sizes, |sizes|)
    requires EndsPackage(sizes, enc, plain, t, q) && pos < plain
    ensures WindowEnd(sizes, pos) <= enc
  {
    hide EncSize, PartOf;
    var s, a := PartOf(sizes, pos, 0), InPart(sizes, pos);
    if s < t {
      StartsMonotone(sizes, s + 1, t);
    } else if t < s {
      StartsMonotone(sizes, t + 1, s);
    } else {
      assert a < (q + 1) * BLOCK;
      assert a / BLOCK <= q;
    }
  }

  // ---- ranges that are served, and one that is not ----

  /** Every range that starts in the first part is served. */
  lemma FirstPartServed(sizes: seq<nat>, start: nat, end: nat)
    requires ValidRange(sizes, start, end) && start < sizes[0]
    ensures Serves(sizes, start, end)
  {
    PartOfUnique(sizes, start, 0, 0);
  }

  /** Every range is served when all parts have one size, the last one at most that. */
  lemma EqualPartsServed(sizes: seq<nat>, size: nat, start: nat, end: nat)
    requires ValidRange(sizes, start, end)
    requires forall i :: 0 <= i < |sizes| - 1 ==> sizes[i] == size
    requires sizes[|sizes| - 1] <= size
    ensures Serves(sizes, start, end)
  {
    hide EncSize, PartOf, PackageEncEnd, WindowStart, WindowEnd;
    WindowOrdered(sizes, start, end);
    WindowBounds(sizes, end);
    var ps, pe := PartOf(sizes, start, 0), PartOf(sizes, end, 0);
    assert sizes[pe - ps] >= sizes[pe];
    assert Needed(sizes, end) <= sizes[pe];
    assert ServesFrom(sizes, end, 0, ps);
  }

  /** Part sizes that an upload may have and a range inside the second part that is not served. */
  lemma GrowingPartsNotServed()
    ensures var sizes, start := [5 * 0x10_0000, 6 * 0x10_0000], 5 * 0x10_0000;
            ValidRange(sizes, start, 2 * start) && !Serves(sizes, start, 2 * start)
  {
    var sizes, start := [5 * 0x10_0000, 6 * 0x10_0000], 5 * 0x10_0000;
    assert PlainStart(sizes, 1) == start && PlainStart(sizes, 2) == 11 * 0x10_0000;
    assert EncStart(sizes, 1) < 0x100_0000 && EncStart(sizes, 2) < 0x100_0000;
    PartOfUnique(sizes, start, 0, 1);
    PartOfUnique(sizes, 2 * start, 0, 1);
    assert Needed(sizes, 2 * start) == 5 * 0x10_0000 + BLOCK;
  }
}
