/** Sorting by a string key whose values differ. */
module Sorting {
  import opened Strings

  ghost predicate Increasing<T>(key: T -> string, xs: seq<T>)
  {
    forall i, j :: 0 <= i < j < |xs| ==> Lt(key(xs[i]), key(xs[j]))
  }

  ghost predicate Differing<T>(key: T -> string, xs: seq<T>)
  {
    forall i, j :: 0 <= i < j < |xs| ==> key(xs[i]) != key(xs[j])
  }

  function Insert<T(==)>(key: T -> string, x: T, xs: seq<T>): (r: seq<T>)
    ensures multiset(r) == multiset(xs) + multiset{x}
  {
    if xs == [] || Le(key(x), key(xs[0])) then [x] + xs
    else
      assert xs == [xs[0]] + xs[1..];
      [xs[0]] + Insert(key, x, xs[1..])
  }

  function Sort<T(==)>(key: T -> string, xs: seq<T>): (r: seq<T>)
    ensures multiset(r) == multiset(xs)
  {
    if xs == [] then []
    else
      assert xs == [xs[0]] + xs[1..];
      Insert(key, xs[0], Sort(key, xs[1..]))
  }

  lemma {:induction false} InsertIncreases<T>(key: T -> string, x: T, xs: seq<T>)
    requires Increasing(key, xs) && forall y :: y in xs ==> key(y) != key(x)
    ensures Increasing(key, Insert(key, x, xs))
  {
    if xs != [] {
      var first, rest := xs[0], xs[1..];
      LtTotal(key(x), key(first));
      if Le(key(x), key(first)) {
        forall y | y in xs ensures Lt(key(x), key(y)) {
          if y != first { LtTransitive(key(x), key(first), key(y)); }
        }
      } else {
        InsertIncreases(key, x, rest);
        var r := Insert(key, x, rest);
        forall y | y in r ensures Lt(key(first), key(y)) {
          assert y in multiset(r);
          assert y == x || y in rest;
        }
      }
    }
  }

  lemma {:induction false} SortIncreases<T>(key: T -> string, xs: seq<T>)
    requires Differing(key, xs)
    ensures Increasing(key, Sort(key, xs))
  {
    if xs != [] {
      SortIncreases(key, xs[1..]);
      forall y | y in Sort(key, xs[1..]) ensures key(y) != key(xs[0]) {
        assert y in multiset(Sort(key, xs[1..]));
        assert y in xs[1..];
      }
      InsertIncreases(key, xs[0], Sort(key, xs[1..]));
    }
  }

  /** The order of the keys leaves no choice. */
  lemma {:induction false} IncreasingIsUnique<T>(key: T -> string, a: seq<T>, b: seq<T>)
    requires Increasing(key, a) && Increasing(key, b) && multiset(a) == multiset(b)
    ensures a == b
  {
    if a == [] || b == [] {
      assert |multiset(a)| == |a| && |multiset(b)| == |b|;
    } else {
      SameFirst(key, a, b);
      assert a == [a[0]] + a[1..] && b == [b[0]] + b[1..];
      assert multiset(a[1..]) == multiset(a) - multiset{a[0]};
      assert multiset(b[1..]) == multiset(b) - multiset{b[0]};
      IncreasingIsUnique(key, a[1..], b[1..]);
    }
  }

  lemma SameFirst<T>(key: T -> string, a: seq<T>, b: seq<T>)
    requires Increasing(key, a) && Increasing(key, b) && multiset(a) == multiset(b) && a != [] && b != []
    ensures a[0] == b[0]
  {
    assert b[0] in multiset(b);
    assert b[0] in a;
    assert a[0] in multiset(a);
    assert a[0] in b;
    if a[0] != b[0] {
      assert Lt(key(a[0]), key(b[0])) && Lt(key(b[0]), key(a[0]));
      LtAsymmetric(key(a[0]), key(b[0]));
    }
  }

  /** Sorting forgets the order in which the elements arrived. */
  lemma ArrivalOrderIsLost<T>(key: T -> string, xs: seq<T>, arrived: seq<T>)
    requires Differing(key, xs) && multiset(arrived) == multiset(xs)
    ensures Sort(key, arrived) == Sort(key, xs)
  {
    DifferInAnyOrder(key, xs, arrived);
    SortIncreases(key, xs);
    SortIncreases(key, arrived);
    IncreasingIsUnique(key, Sort(key, arrived), Sort(key, xs));
  }

  lemma SortedStays<T>(key: T -> string, xs: seq<T>)
    requires Increasing(key, xs)
    ensures Sort(key, xs) == xs
  {
    forall i, j | 0 <= i < j < |xs| ensures key(xs[i]) != key(xs[j]) {
      LtAsymmetric(key(xs[i]), key(xs[j]));
    }
    SortIncreases(key, xs);
    IncreasingIsUnique(key, Sort(key, xs), xs);
  }

  lemma DifferInAnyOrder<T>(key: T -> string, xs: seq<T>, arrived: seq<T>)
    requires Differing(key, xs) && multiset(arrived) == multiset(xs)
    ensures Differing(key, arrived)
  {
    forall i, j | 0 <= i < j < |arrived| ensures key(arrived[i]) != key(arrived[j]) {
      assert arrived[i] in multiset(arrived) && arrived[j] in multiset(arrived);
      assert arrived[i] in xs && arrived[j] in xs;
      if arrived[i] == arrived[j] {
        CountedTwice(arrived, i, j);
        OnceOnly(key, xs, arrived[i]);
      }
    }
  }

  lemma CountedTwice<T>(xs: seq<T>, i: nat, j: nat)
    requires i < j < |xs| && xs[i] == xs[j]
    ensures multiset(xs)[xs[i]] >= 2
  {
    assert xs == xs[..j] + xs[j..];
    assert xs[i] in xs[..j] && xs[j] in xs[j..];
  }

  lemma {:induction false} OnceOnly<T>(key: T -> string, xs: seq<T>, x: T)
    requires Differing(key, xs)
    ensures multiset(xs)[x] <= 1
  {
    if xs != [] {
      assert xs == [xs[0]] + xs[1..];
      OnceOnly(key, xs[1..], x);
      if xs[0] == x {
        assert x !in xs[1..];
      }
    }
  }
}
