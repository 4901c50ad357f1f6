/** The header that lists the parts of a completed multipart upload, written and read back. */
module CompletedParts {
  import opened Strings
  import opened Wrappers

  /** An uploaded part; the number and the size are 64-bit integers. */
  datatype PartInfo = PartInfo(number: int, oid: string, size: int, etag: string)

  datatype Part = Part(etag: string, partNumber: int, size: int)

  predicate IsInt64(n: int) { -MAX_INT - 1 <= n <= MAX_INT }

  function Itoa(n: int): string { if n < 0 then "-" + Decimal(-n) else Decimal(n) }

  function ToHeaderString(p: PartInfo): string
  {
    Itoa(p.number) + "-" + Itoa(p.size) + "-" + p.etag
  }

  function ParseCompletedPartHeader(hdr: string): Option<Part>
  {
    var info := Split(hdr, '-');
    if |info| != 3 then None
    else
      var num, size := Atoi(info[0]), Atoi(info[1]);
      if num.None? || size.None? then None else Some(Part(info[2], num.value, size.value))
  }

  /** The entries of the header for some parts. */
  function Entries(parts: seq<PartInfo>): (r: seq<string>)
    ensures |r| == |parts| && forall i :: 0 <= i < |parts| ==> r[i] == ToHeaderString(parts[i])
  {
    seq(|parts|, i requires 0 <= i < |parts| => ToHeaderString(parts[i]))
  }

  function Header(parts: seq<PartInfo>): string
  {
    if parts == [] then "" else Join(Entries(parts), ',')
  }

  function ParseAll(entries: seq<string>): Option<seq<Part>>
  {
    if entries == [] then Some([])
    else
      var rest, part := ParseAll(entries[..|entries| - 1]), ParseCompletedPartHeader(entries[|entries| - 1]);
      if rest.Some? && part.Some? then Some(rest.value + [part.value]) else None
  }

  lemma {:induction false} ParseAllIs(entries: seq<string>)
    ensures var r := ParseAll(entries);
            && (r.Some? <==> forall i :: 0 <= i < |entries| ==> ParseCompletedPartHeader(entries[i]).Some?)
            && (r.Some? ==> |r.value| == |entries|)
            && (r.Some? ==> forall i :: 0 <= i < |entries| ==> ParseCompletedPartHeader(entries[i]) == Some(r.value[i]))
  {
    hide ParseCompletedPartHeader;
    if entries != [] {
      var last := |entries| - 1;
      ParseAllIs(entries[..last]);
      assert forall i :: 0 <= i < last ==> entries[i] == entries[..last][i];
    }
  }

  /** The parts that the reader of an encrypted object takes from the header. */
  function ParseHeader(header: string): Option<seq<Part>>
  {
    ParseAll(Split(header, ','))
  }

  // ---- counting separators ----

  function Count(s: string, c: char): nat
  {
    if s == "" then 0 else (if s[0] == c then 1 else 0) + Count(s[1..], c)
  }

  lemma {:induction false} CountNone(s: string, c: char)
    ensures Count(s, c) == 0 <==> c !in s
  {
    if s != "" {
      CountNone(s[1..], c);
      assert s == [s[0]] + s[1..];
    }
  }

  lemma {:induction false} CountAppend(a: string, b: string, c: char)
    ensures Count(a + b, c) == Count(a, c) + Count(b, c)
  {
    if a == "" {
      assert a + b == b;
    } else {
      assert (a + b)[1..] == a[1..] + b;
      CountAppend(a[1..], b, c);
    }
  }

  /** Splitting gives one piece more than there are separators. */
  lemma {:induction false} SplitCount(s: string, sep: char)
    ensures |Split(s, sep)| == 1 + Count(s, sep)
    decreases |s|
  {
    var i := FirstOf(s, sep);
    CountNone(s[..i], sep);
    hide FirstOf, Count;
    if i < |s| {
      var rest := s[i + 1..];
      SplitCount(rest, sep);
      assert s == s[..i] + ([sep] + rest);
      CountAppend(s[..i], [sep] + rest, sep);
      CountFirst(sep, rest, sep);
    } else {
      assert s[..i] == s;
    }
  }

  lemma CountFirst(x: char, rest: string, c: char)
    ensures Count([x] + rest, c) == (if x == c then 1 else 0) + Count(rest, c)
  {
    assert ([x] + rest)[1..] == rest;
  }

  /** The separators of joined pieces: those between them and those in them. */
  function CountAll(parts: seq<string>, sep: char): nat
  {
    if parts == [] then 0 else Count(parts[0], sep) + CountAll(parts[1..], sep)
  }

  lemma {:induction false} JoinCount(parts: seq<string>, sep: char)
    requires parts != []
    ensures Count(Join(parts, sep), sep) == |parts| - 1 + CountAll(parts, sep)
  {
    if |parts| > 1 {
      JoinCount(parts[1..], sep);
      CountAppend(parts[0] + [sep], Join(parts[1..], sep), sep);
      CountAppend(parts[0], [sep], sep);
    } else {
      assert parts[1..] == [];
    }
  }

  lemma {:induction false} CountAllNone(parts: seq<string>, sep: char)
    ensures CountAll(parts, sep) == 0 <==> forall i :: 0 <= i < |parts| ==> sep !in parts[i]
  {
    if parts != [] {
      CountAllNone(parts[1..], sep);
      CountNone(parts[0], sep);
      assert forall i :: 0 <= i < |parts[1..]| ==> parts[1..][i] == parts[i + 1];
    }
  }

  /** Joined pieces split into as many exactly if no piece has the separator, and then into themselves. */
  lemma PiecesComeBack(parts: seq<string>, sep: char)
    requires parts != []
    ensures |Split(Join(parts, sep), sep)| == |parts| <==> forall i :: 0 <= i < |parts| ==> sep !in parts[i]
    ensures (forall i :: 0 <= i < |parts| ==> sep !in parts[i]) ==> Split(Join(parts, sep), sep) == parts
  {
    hide Split, Join;
    SplitCount(Join(parts, sep), sep);
    JoinCount(parts, sep);
    CountAllNone(parts, sep);
    if forall i :: 0 <= i < |parts| ==> sep !in parts[i] { SplitJoin(parts, sep); }
  }

  // ---- one part ----

  /** A part whose entry can be read: neither number nor size is negative, and the ETag has no separator. */
  predicate Readable(p: PartInfo)
  {
    p.number >= 0 && p.size >= 0 && '-' !in p.etag && ',' !in p.etag
  }

  lemma ItoaHas(n: int)
    ensures Count(Itoa(n), '-') == if n < 0 then 1 else 0
    ensures ',' !in Itoa(n)
  {
    var d := Decimal(if n < 0 then -n else n);
    DecimalHasNo(if n < 0 then -n else n, '-');
    DecimalHasNo(if n < 0 then -n else n, ',');
    CountNone(d, '-');
    CountAppend("-", d, '-');
  }

  lemma EntryCount(p: PartInfo)
    ensures Count(ToHeaderString(p), '-') ==
            2 + (if p.number < 0 then 1 else 0) + (if p.size < 0 then 1 else 0) + Count(p.etag, '-')
  {
    var a, b := Itoa(p.number), Itoa(p.size);
    ItoaHas(p.number);
    ItoaHas(p.size);
    CountAppend(a + "-" + b + "-", p.etag, '-');
    CountAppend(a + "-" + b, "-", '-');
    CountAppend(a + "-", b, '-');
    CountAppend(a, "-", '-');
  }

  /** Without commas, an entry reads back exactly if it has just its own two hyphens. */
  lemma EntryReadsBack(p: PartInfo)
    requires IsInt64(p.number) && IsInt64(p.size)
    ensures ParseCompletedPartHeader(ToHeaderString(p)) == Some(Part(p.etag, p.number, p.size)) <==>
            p.number >= 0 && p.size >= 0 && '-' !in p.etag
  {
    hide Split, Join;
    SplitCount(ToHeaderString(p), '-');
    EntryCount(p);
    CountNone(p.etag, '-');
    if p.number >= 0 && p.size >= 0 && '-' !in p.etag {
      ThreePieces(p);
      AtoiDecimal(p.number);
      AtoiDecimal(p.size);
    }
  }

  lemma ThreePieces(p: PartInfo)
    requires p.number >= 0 && p.size >= 0 && '-' !in p.etag
    ensures Split(ToHeaderString(p), '-') == [Decimal(p.number), Decimal(p.size), p.etag]
  {
    hide Split, Decimal;
    var a, b, e := Decimal(p.number), Decimal(p.size), p.etag;
    DecimalHasNo(p.number, '-');
    DecimalHasNo(p.size, '-');
    SplitFirst(a, '-', b + ['-'] + e);
    SplitFirst(b, '-', e);
    SplitFirst(e, '-', "");
    assert ToHeaderString(p) == a + ['-'] + (b + ['-'] + e);
  }

  // ---- all parts ----

  ghost predicate ReadsBack(parts: seq<PartInfo>)
  {
    ParseHeader(Header(parts)) == Some(AsParts(parts))
  }

  function AsParts(parts: seq<PartInfo>): (r: seq<Part>)
    ensures |r| == |parts|
    ensures forall i :: 0 <= i < |parts| ==> r[i] == Part(parts[i].etag, parts[i].number, parts[i].size)
  {
    seq(|parts|, i requires 0 <= i < |parts| => Part(parts[i].etag, parts[i].number, parts[i].size))
  }

  lemma EntryCommas(p: PartInfo)
    ensures ',' in ToHeaderString(p) <==> ',' in p.etag
  {
    ItoaHas(p.number);
    ItoaHas(p.size);
  }

  /** The header of some parts is read as just these parts exactly if each part is readable. */
  lemma HeaderReadsBack(parts: seq<PartInfo>)
    requires parts != [] && forall i :: 0 <= i < |parts| ==> IsInt64(parts[i].number) && IsInt64(parts[i].size)
    ensures ReadsBack(parts) <==> forall i :: 0 <= i < |parts| ==> Readable(parts[i])
  {
    hide Split, Join, ToHeaderString, ParseCompletedPartHeader;
    PiecesComeBack(Entries(parts), ',');
    forall i | 0 <= i < |parts|
      ensures ',' in ToHeaderString(parts[i]) <==> ',' in parts[i].etag
    {
      EntryCommas(parts[i]);
    }
    forall i | 0 <= i < |parts|
      ensures ParseCompletedPartHeader(ToHeaderString(parts[i])) ==
              Some(Part(parts[i].etag, parts[i].number, parts[i].size)) <==>
              parts[i].number >= 0 && parts[i].size >= 0 && '-' !in parts[i].etag
    {
      EntryReadsBack(parts[i]);
    }
    if forall i :: 0 <= i < |parts| ==> ',' !in parts[i].etag {
      EntriesRead(parts);
    } else {
      ParseAllIs(Split(Header(parts), ','));
    }
  }

  /** Entries are read as the parts exactly if each entry is. */
  lemma EntriesRead(parts: seq<PartInfo>)
    ensures ParseAll(Entries(parts)) == Some(AsParts(parts)) <==>
            forall i :: 0 <= i < |parts| ==>
              ParseCompletedPartHeader(ToHeaderString(parts[i])) ==
              Some(Part(parts[i].etag, parts[i].number, parts[i].size))
  {
    hide ToHeaderString, ParseCompletedPartHeader;
    var read := ParseAll(Entries(parts));
    ParseAllIs(Entries(parts));
    if read.Some? {
      assert read.value == AsParts(parts) <==> forall i :: 0 <= i < |parts| ==> read.value[i] == AsParts(parts)[i];
    }
  }
}
