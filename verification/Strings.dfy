/** Strings compared byte by byte, and the few operations on them that several components use. */
module Strings {
  import opened Wrappers

  /** Lexicographic order, a proper prefix being smaller. */
  predicate Lt(a: string, b: string)
  {
    if b == [] then false
    else if a == [] then true
    else if a[0] != b[0] then a[0] < b[0]
    else Lt(a[1..], b[1..])
  }

  predicate Le(a: string, b: string)
  {
    a == b || Lt(a, b)
  }

  lemma {:induction false} LtIrreflexive(a: string)
    ensures !Lt(a, a)
  {
    if a != [] { LtIrreflexive(a[1..]); }
  }

  lemma {:induction false} LtTransitive(a: string, b: string, c: string)
    requires Lt(a, b) && Lt(b, c)
    ensures Lt(a, c)
  {
    if a != [] && a[0] == b[0] == c[0] { LtTransitive(a[1..], b[1..], c[1..]); }
  }

  lemma {:induction false} LtTotal(a: string, b: string)
    ensures Lt(a, b) || a == b || Lt(b, a)
  {
    if a != [] && b != [] && a[0] == b[0] {
      LtTotal(a[1..], b[1..]);
      assert a == [a[0]] + a[1..] && b == [b[0]] + b[1..];
    }
  }

  lemma LtAsymmetric(a: string, b: string)
    requires Lt(a, b)
    ensures !Lt(b, a) && a != b
  {
    if Lt(b, a) { LtTransitive(a, b, a); }
    LtIrreflexive(a);
  }

  lemma LeTransitive(a: string, b: string, c: string)
    requires Le(a, b) && Le(b, c)
    ensures Le(a, c)
    ensures Lt(a, b) || Lt(b, c) ==> Lt(a, c)
  {
    if Lt(a, b) && Lt(b, c) { LtTransitive(a, b, c); }
  }

  /** A common prefix does not decide an order. */
  lemma {:induction false} LtAfterPrefix(p: string, a: string, b: string)
    ensures Lt(p + a, p + b) <==> Lt(a, b)
  {
    if p == [] {
      assert p + a == a && p + b == b;
    } else {
      assert (p + a)[1..] == p[1..] + a && (p + b)[1..] == p[1..] + b;
      LtAfterPrefix(p[1..], a, b);
    }
  }

  predicate HasPrefix(s: string, p: string)
  {
    p <= s
  }

  function TrimPrefix(s: string, p: string): string
  {
    if p <= s then s[|p|..] else s
  }

  predicate OccursAt(s: string, sub: string, i: nat)
  {
    i + |sub| <= |s| && s[i..i + |sub|] == sub
  }

  /** Index of the first occurrence of `sub` in `s` at or behind `from`; -1 when there is none. */
  function IndexFrom(s: string, sub: string, from: nat): (i: int)
    requires from <= |s|
    ensures i == -1 || (from <= i && OccursAt(s, sub, i))
    ensures forall j: nat :: from <= j && OccursAt(s, sub, j) ==> 0 <= i <= j
    decreases |s| - from
  {
    if OccursAt(s, sub, from) then from
    else if from == |s| then -1
    else IndexFrom(s, sub, from + 1)
  }

  function Index(s: string, sub: string): int
  {
    IndexFrom(s, sub, 0)
  }

  // ---- splitting and joining at a separator ----

  function Join(parts: seq<string>, sep: char): string
    requires parts != []
  {
    if |parts| == 1 then parts[0] else parts[0] + [sep] + Join(parts[1..], sep)
  }

  function FirstOf(s: string, sep: char): (i: nat)
    ensures i <= |s| && sep !in s[..i] && (i < |s| ==> s[i] == sep)
  {
    if s == "" || s[0] == sep then 0 else
      var j := FirstOf(s[1..], sep);
      assert s[..j + 1] == [s[0]] + s[1..][..j];
      1 + j
  }

  function Split(s: string, sep: char): (r: seq<string>)
    ensures r != []
    decreases |s|
  {
    var i := FirstOf(s, sep);
    if i == |s| then [s] else [s[..i]] + Split(s[i + 1..], sep)
  }

  lemma FirstOfIs(a: string, sep: char, b: string)
    requires sep !in a
    ensures FirstOf(a + [sep] + b, sep) == |a|
    ensures FirstOf(a, sep) == |a|
    decreases |a|
  {
    if a != "" {
      assert (a + [sep] + b)[1..] == a[1..] + [sep] + b;
      FirstOfIs(a[1..], sep, b);
    }
  }

  lemma SplitFirst(a: string, sep: char, b: string)
    requires sep !in a
    ensures Split(a + [sep] + b, sep) == [a] + Split(b, sep)
    ensures Split(a, sep) == [a]
  {
    FirstOfIs(a, sep, b);
    assert (a + [sep] + b)[..|a|] == a && (a + [sep] + b)[|a| + 1..] == b;
  }

  lemma {:induction false} JoinSplit(s: string, sep: char)
    ensures Join(Split(s, sep), sep) == s
    ensures forall part :: part in Split(s, sep) ==> sep !in part
    decreases |s|
  {
    var i := FirstOf(s, sep);
    if i < |s| {
      JoinSplit(s[i + 1..], sep);
      assert s == s[..i] + [sep] + s[i + 1..];
      assert Split(s, sep)[1..] == Split(s[i + 1..], sep);
    } else {
      assert s[..i] == s;
    }
  }

  lemma {:induction false} SplitJoin(parts: seq<string>, sep: char)
    requires parts != [] && forall part :: part in parts ==> sep !in part
    ensures Split(Join(parts, sep), sep) == parts
  {
    if |parts| == 1 {
      SplitFirst(parts[0], sep, "");
    } else {
      SplitJoin(parts[1..], sep);
      SplitFirst(parts[0], sep, Join(parts[1..], sep));
    }
  }

  /** `part` starts with the joined `prefix`: all but its last component are there, the last one in part. */
  ghost predicate StartsWith(parts: seq<string>, prefix: seq<string>)
    requires prefix != []
  {
    var k := |prefix| - 1;
    |parts| > k && parts[..k] == prefix[..k] && HasPrefix(parts[k], prefix[k])
  }

  /** A joined path has a string as its prefix exactly if its components start with those of the string. */
  lemma {:induction false} JoinHasPrefix(parts: seq<string>, prefix: string, sep: char)
    requires parts != [] && forall part :: part in parts ==> sep !in part
    ensures HasPrefix(Join(parts, sep), prefix) <==> StartsWith(parts, Split(prefix, sep))
    decreases |parts|
  {
    var path, i := Join(parts, sep), FirstOf(prefix, sep);
    var head := parts[0];
    if i == |prefix| {
      assert prefix[..i] == prefix;
      PrefixInFirst(parts, prefix, sep);
    } else {
      var a, rest := prefix[..i], prefix[i + 1..];
      assert prefix == a + [sep] + rest;
      var tail := Split(rest, sep);
      assert Split(prefix, sep) == [a] + tail;
      if |parts| == 1 {
        SeparatorBlocks(path, prefix, i, sep);
      } else {
        JoinHasPrefix(parts[1..], rest, sep);
        PrefixBehindFirst(head, Join(parts[1..], sep), a, rest, sep);
        StartsBehindFirst(parts, a, tail);
      }
    }
  }

  /** A string with a separator is no prefix of one without. */
  lemma SeparatorBlocks(s: string, prefix: string, i: nat, sep: char)
    requires sep !in s && i < |prefix| && prefix[i] == sep
    ensures !HasPrefix(s, prefix)
  {
    assert |prefix| <= |s| ==> s[i] != sep;
  }

  lemma PrefixInFirst(parts: seq<string>, prefix: string, sep: char)
    requires parts != [] && sep !in prefix
    ensures HasPrefix(Join(parts, sep), prefix) <==> HasPrefix(parts[0], prefix)
  {
    var path, head := Join(parts, sep), parts[0];
    assert HasPrefix(path, head);
    assert |prefix| > |head| ==> prefix[|head|] != sep;
    assert |parts| > 1 ==> path[|head|] == sep;
  }

  lemma PrefixBehindFirst(head: string, tail: string, a: string, rest: string, sep: char)
    requires sep !in head && sep !in a
    ensures HasPrefix(head + [sep] + tail, a + [sep] + rest) <==> head == a && HasPrefix(tail, rest)
  {
    var path, prefix := head + [sep] + tail, a + [sep] + rest;
    if HasPrefix(path, prefix) {
      FirstOfIs(head, sep, tail);
      assert path == a + [sep] + path[|prefix| - |rest|..];
      FirstOfIs(a, sep, path[|prefix| - |rest|..]);
      assert head == path[..|head|] && a == prefix[..|a|];
      assert tail == path[|head| + 1..] && rest == prefix[|a| + 1..];
    }
  }

  lemma StartsBehindFirst(parts: seq<string>, a: string, tail: seq<string>)
    requires |parts| > 1 && tail != []
    ensures StartsWith(parts, [a] + tail) <==> parts[0] == a && StartsWith(parts[1..], tail)
  {
    var k := |tail|;
    assert ([a] + tail)[..k] == [a] + tail[..k - 1];
    if |parts| > k {
      assert parts[..k] == [parts[0]] + parts[1..][..k - 1];
      assert parts[k] == parts[1..][k - 1];
    }
  }

  /** The components before the last one, joined and ended with the separator, are the rest of a path. */
  lemma {:induction false} JoinSnoc(parts: seq<string>, last: string, sep: char)
    requires parts != []
    ensures Join(parts + [last], sep) == Join(parts, sep) + [sep] + last
  {
    if |parts| == 1 {
      assert (parts + [last])[1..] == [last];
    } else {
      assert (parts + [last])[1..] == parts[1..] + [last];
      JoinSnoc(parts[1..], last, sep);
    }
  }

  // ---- decimal numbers ----

  function Digit(d: nat): char
    requires d < 10
  {
    ['0', '1', '2', '3', '4', '5', '6', '7', '8', '9'][d]
  }

  predicate IsDigit(c: char)
  {
    '0' <= c <= '9'
  }

  function DigitValue(c: char): (d: nat)
    requires IsDigit(c)
    ensures d < 10 && Digit(d) == c
  {
    (c - '0') as int
  }

  function Decimal(n: nat): (s: string)
    ensures IsDecimal(s)
  {
    if n < 10 then [Digit(n)] else Decimal(n / 10) + [Digit(n % 10)]
  }

  predicate IsDecimal(s: string)
  {
    s != "" && forall i :: 0 <= i < |s| ==> IsDigit(s[i])
  }

  function DecimalValue(s: string): nat
    requires IsDecimal(s)
  {
    var last := s[|s| - 1];
    if |s| == 1 then DigitValue(last)
    else 10 * DecimalValue(s[..|s| - 1]) + DigitValue(last)
  }

  lemma {:induction false} DecimalRoundTrip(n: nat)
    ensures DecimalValue(Decimal(n)) == n
  {
    hide Digit, DigitValue;
    DigitRoundTrip(n % 10);
    if n >= 10 {
      DecimalRoundTrip(n / 10);
      assert Decimal(n)[..|Decimal(n)| - 1] == Decimal(n / 10);
    }
  }

  lemma DigitRoundTrip(d: nat)
    requires d < 10
    ensures IsDigit(Digit(d)) && DigitValue(Digit(d)) == d
  {
  }

  /** Decimal digits contain no other character. */
  lemma DecimalHasNo(n: nat, c: char)
    requires !IsDigit(c)
    ensures c !in Decimal(n)
  {
  }

  const MAX_INT := 0x7FFF_FFFF_FFFF_FFFF
  const MAX_U64 := 0xFFFF_FFFF_FFFF_FFFF

  /** Reads an unsigned 64-bit integer. */
  function ParseUint(s: string): Option<nat>
  {
    if !IsDecimal(s) || DecimalValue(s) > MAX_U64 then None else Some(DecimalValue(s))
  }

  /** Reads a 64-bit integer with an optional sign. */
  function Atoi(s: string): Option<int>
  {
    var digits := if s != "" && (s[0] == '-' || s[0] == '+') then s[1..] else s;
    if !IsDecimal(digits) then None
    else
      var v: int := DecimalValue(digits);
      var n := if s[0] == '-' then -v else v;
      if -MAX_INT - 1 <= n <= MAX_INT then Some(n) else None
  }

  lemma AtoiDecimal(n: nat)
    requires n <= MAX_INT
    ensures Atoi(Decimal(n)) == Some(n)
  {
    DecimalRoundTrip(n);
    DecimalHasNo(n, '-');
    DecimalHasNo(n, '+');
  }
}
