/** The Range header of a request: which stretch of an object it asks for. */
module RangeHeaders {
  import opened Strings
  import opened Wrappers

  const BYTES_PREFIX := "bytes="

  /** An accepted stretch goes from `start` to `end`, both inclusive. */
  datatype Answer = NoRange | Accepted(start: nat, end: nat) | InvalidRange | Malformed

  /** The forms of a byte range, section 14.1.2 of RFC 9110. */
  datatype Spec = From(first: nat) | Closed(first: nat, last: nat) | Suffix(length: nat)

  function Print(s: Spec): string
  {
    BYTES_PREFIX + match s
                   case From(first) => Decimal(first) + ['-'] + ""
                   case Closed(first, last) => Decimal(first) + ['-'] + Decimal(last)
                   case Suffix(length) => "" + ['-'] + Decimal(length)
  }

  /** The range that a header spells, if it is one. */
  function ReadSpec(header: string): Option<Spec>
  {
    var parts := Split(TrimPrefix(header, BYTES_PREFIX), '-');
    if !HasPrefix(header, BYTES_PREFIX) || |parts| != 2 then None
    else if IsDecimal(parts[0]) && IsDecimal(parts[1]) then Some(Closed(DecimalValue(parts[0]), DecimalValue(parts[1])))
    else if IsDecimal(parts[0]) && parts[1] == "" then Some(From(DecimalValue(parts[0])))
    else if parts[0] == "" && IsDecimal(parts[1]) then Some(Suffix(DecimalValue(parts[1])))
    else None
  }

  lemma PrintReadsBack(s: Spec)
    ensures ReadSpec(Print(s)) == Some(s)
  {
    hide Split, DecimalValue, Decimal;
    var rest := Print(s)[|BYTES_PREFIX|..];
    assert TrimPrefix(Print(s), BYTES_PREFIX) == rest;
    match s
    case From(first) =>
      DecimalRoundTrip(first);
      Halves(Decimal(first), "");
    case Closed(first, last) =>
      DecimalRoundTrip(first);
      DecimalRoundTrip(last);
      DecimalHasNo(last, '-');
      Halves(Decimal(first), Decimal(last));
    case Suffix(length) =>
      DecimalRoundTrip(length);
      DecimalHasNo(length, '-');
      Halves("", Decimal(length));
  }

  lemma Halves(a: string, b: string)
    requires (a == "" || IsDecimal(a)) && '-' !in b
    ensures Split(a + ['-'] + b, '-') == [a, b]
  {
    SplitFirst(a, '-', b);
    SplitFirst(b, '-', "");
  }

  /** What the gateway answers for an object of some size. */
  function Answered(s: Spec, size: nat): Answer
  {
    match s
    case From(first) => if first < size then Accepted(first, size - 1) else InvalidRange
    case Closed(first, last) =>
      if first <= last <= MAX_U64 && first < size then Accepted(first, Min(last, size - 1)) else InvalidRange
    case Suffix(length) => if 0 < length <= size then Accepted(size - length, size - 1) else InvalidRange
  }

  /** What the range means: a last byte behind the end stands for the end, and a longer suffix for the whole object. */
  function Meant(s: Spec, size: nat): Answer
  {
    match s
    case From(first) => if first < size then Accepted(first, size - 1) else InvalidRange
    case Closed(first, last) =>
      if first <= last && first < size then Accepted(first, Min(last, size - 1)) else InvalidRange
    case Suffix(length) => if 0 < length && 0 < size then Accepted(size - Min(length, size), size - 1) else InvalidRange
  }

  /** The gateway answers as meant but for suffixes longer than the object and last bytes beyond 64 bits. */
  lemma AnsweredAsMeant(s: Spec, size: nat)
    ensures Answered(s, size) == Meant(s, size) <==>
            && !(s.Suffix? && 0 < size < s.length)
            && !(s.Closed? && s.first < size && s.first <= s.last && s.last > MAX_U64)
  {
  }

  /** The last two bytes of an object of one byte: the whole object is meant, and refused. */
  lemma SuffixExample()
    ensures Meant(Suffix(2), 1) == Accepted(0, 0) && Answered(Suffix(2), 1) == InvalidRange
    ensures ReadSpec("bytes=-2") == Some(Suffix(2))
  {
    PrintReadsBack(Suffix(2));
    assert Decimal(2) == "2";
    assert "" + ['-'] + "2" == "-2";
    assert BYTES_PREFIX + "-2" == "bytes=-2";
  }

  /** Unsigned 64-bit subtraction wraps around. */
  function Minus(a: nat, b: nat): nat
    requires a <= MAX_U64 && b <= MAX_U64
  {
    if a >= b then a - b else a + (MAX_U64 + 1) - b
  }

  /** Something is given on at least one side of the one hyphen of a header of bytes. */
  predicate LooksLikeRange(header: string)
  {
    var parts := Split(TrimPrefix(header, BYTES_PREFIX), '-');
    HasPrefix(header, BYTES_PREFIX) && |parts| == 2 && !(parts[0] == "" && parts[1] == "")
  }

  /** Reads the header. An accepted range lies within the object, which is what reading the object needs. */
  method FetchRangeHeader(rangeHeader: string, fullSize: nat) returns (r: Answer)
    requires fullSize <= MAX_U64
    ensures r.Accepted? ==> r.start <= r.end < fullSize
    ensures r == NoRange <==> rangeHeader == ""
    ensures rangeHeader != "" && ReadSpec(rangeHeader).Some? ==> r == Answered(ReadSpec(rangeHeader).value, fullSize)
    ensures rangeHeader != "" && ReadSpec(rangeHeader).None? ==> r == InvalidRange || r == Malformed
    ensures r == Malformed <==> rangeHeader != "" && fullSize > 0 && !LooksLikeRange(rangeHeader)
  {
    hide Split, DecimalValue;
    if |rangeHeader| == 0 {
      return NoRange;
    }
    if fullSize == 0 {
      return InvalidRange;
    }
    if !HasPrefix(rangeHeader, BYTES_PREFIX) {
      return Malformed;
    }
    var arr := Split(TrimPrefix(rangeHeader, BYTES_PREFIX), '-');
    if |arr| != 2 || (arr[0] == "" && arr[1] == "") {
      return Malformed;
    }
    var start, end := Some(0), Some(0);
    if arr[0] == "" {
      end := ParseUint(arr[1]);
      if end.Some? {
        start, end := Some(Minus(fullSize, end.value)), Some(fullSize - 1);
      }
    } else if arr[1] == "" {
      start, end := ParseUint(arr[0]), Some(fullSize - 1);
    } else {
      start, end := ParseUint(arr[0]), ParseUint(arr[1]);
      if end.Some? && end.value > fullSize - 1 {
        end := Some(fullSize - 1);
      }
    }
    if start.None? || end.None? || start.value > end.value || start.value > fullSize {
      return InvalidRange;
    }
    return Accepted(start.value, end.value);
  }
}
