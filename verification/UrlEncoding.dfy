/** URL encoding of object names in listings. */
module UrlEncoding {
  import opened Wrappers

  newtype byte = x: int | 0 <= x < 256

  datatype Encoding = EncodePathSegment | EncodeQueryComponent

  const SPACE: byte := 0x20
  const PLUS: byte := 0x2B
  const PERCENT: byte := 0x25

  predicate ShouldEscape(c: byte)
  {
    !('A' as byte <= c <= 'Z' as byte || 'a' as byte <= c <= 'z' as byte || '0' as byte <= c <= '9' as byte
      || c == '-' as byte || c == '_' as byte || c == '.' as byte || c == '/' as byte || c == '*' as byte)
  }

  function UpperHex(d: byte): (c: byte)
    requires d < 16
    ensures !ShouldEscape(c)
  {
    if d < 10 then '0' as byte + d else 'A' as byte + (d - 10)
  }

  predicate IsPlus(c: byte, mode: Encoding) { c == SPACE && mode == EncodeQueryComponent }

  /** What a byte is written as. */
  function EncodeByte(c: byte, mode: Encoding): seq<byte>
  {
    if IsPlus(c, mode) then [PLUS]
    else if ShouldEscape(c) then [PERCENT, UpperHex(c / 16), UpperHex(c % 16)]
    else [c]
  }

  function Encode(s: seq<byte>, mode: Encoding): seq<byte>
  {
    if s == [] then [] else Encode(s[..|s| - 1], mode) + EncodeByte(s[|s| - 1], mode)
  }

  function HexValue(c: byte): Option<byte>
  {
    if '0' as byte <= c <= '9' as byte then Some(c - '0' as byte)
    else if 'A' as byte <= c <= 'F' as byte then Some(c - 'A' as byte + 10)
    else if 'a' as byte <= c <= 'f' as byte then Some(c - 'a' as byte + 10)
    else None
  }

  /** Percent-decoding of section 2.1 of RFC 3986; in a query a plus sign stands for a space. */
  function Decode(s: seq<byte>, mode: Encoding): Option<seq<byte>>
  {
    if s == [] then Some([])
    else if s[0] == PERCENT then
      if |s| < 3 then None
      else
        var hi, lo, rest := HexValue(s[1]), HexValue(s[2]), Decode(s[3..], mode);
        if hi.Some? && lo.Some? && rest.Some? then Some([16 * hi.value + lo.value] + rest.value) else None
    else
      var rest := Decode(s[1..], mode);
      if rest.None? then None
      else Some([if s[0] == PLUS && mode == EncodeQueryComponent then SPACE else s[0]] + rest.value)
  }

  // ---- the two counts ----

  function Spaces(s: seq<byte>, mode: Encoding): nat
  {
    if s == [] then 0 else Spaces(s[..|s| - 1], mode) + if IsPlus(s[|s| - 1], mode) then 1 else 0
  }

  function Hexes(s: seq<byte>, mode: Encoding): nat
  {
    if s == [] then 0
    else Hexes(s[..|s| - 1], mode) + if ShouldEscape(s[|s| - 1]) && !IsPlus(s[|s| - 1], mode) then 1 else 0
  }

  lemma {:induction false} EncodedLength(s: seq<byte>, mode: Encoding)
    ensures |Encode(s, mode)| == |s| + 2 * Hexes(s, mode)
  {
    if s != [] { EncodedLength(s[..|s| - 1], mode); }
  }

  function WithPluses(s: seq<byte>): (r: seq<byte>)
    ensures |r| == |s| && forall i :: 0 <= i < |s| ==> r[i] == if s[i] == SPACE then PLUS else s[i]
  {
    seq(|s|, i requires 0 <= i < |s| => if s[i] == SPACE then PLUS else s[i])
  }

  /** Without escapes only spaces change. */
  lemma {:induction false} EncodedPlainly(s: seq<byte>, mode: Encoding)
    requires Hexes(s, mode) == 0
    ensures Encode(s, mode) == WithPluses(s)
  {
    hide EncodeByte, ShouldEscape, IsPlus;
    if s != [] {
      var front, c := s[..|s| - 1], s[|s| - 1];
      EncodedPlainly(front, mode);
      OnlySpaces(c, mode);
      assert WithPluses(s) == WithPluses(front) + [if c == SPACE then PLUS else c];
    }
  }

  lemma {:induction false} NothingToEncode(s: seq<byte>, mode: Encoding)
    requires Hexes(s, mode) == 0 && Spaces(s, mode) == 0
    ensures Encode(s, mode) == s
  {
    if s != [] {
      NothingToEncode(s[..|s| - 1], mode);
      assert s == s[..|s| - 1] + [s[|s| - 1]];
    }
  }

  lemma OnlySpaces(c: byte, mode: Encoding)
    requires !ShouldEscape(c) || IsPlus(c, mode)
    ensures EncodeByte(c, mode) == [if c == SPACE then PLUS else c]
  {
  }

  lemma EncodedSoFar(s: seq<byte>, i: nat, mode: Encoding)
    requires i < |s|
    ensures Encode(s[..i + 1], mode) == Encode(s[..i], mode) + EncodeByte(s[i], mode)
    ensures |Encode(s[..i + 1], mode)| <= |Encode(s, mode)|
  {
    assert s[..i + 1][..i] == s[..i];
    EncodedGrows(s, i + 1, mode);
  }

  lemma {:induction false} EncodedGrows(s: seq<byte>, i: nat, mode: Encoding)
    requires i <= |s|
    ensures |Encode(s[..i], mode)| <= |Encode(s, mode)|
    decreases |s|
  {
    if i == |s| {
      assert s[..i] == s;
    } else {
      assert s[..|s| - 1][..i] == s[..i];
      EncodedGrows(s[..|s| - 1], i, mode);
    }
  }

  /** Encodes a string into a buffer of exactly the length that the counts give. */
  method S3URLEncode(s: seq<byte>, mode: Encoding) returns (r: seq<byte>)
    ensures r == Encode(s, mode)
  {
    var spaceCount, hexCount := 0, 0;
    for i := 0 to |s|
      invariant spaceCount == Spaces(s[..i], mode) && hexCount == Hexes(s[..i], mode)
    {
      assert s[..i + 1][..i] == s[..i];
      var c := s[i];
      if ShouldEscape(c) {
        if c == SPACE && mode == EncodeQueryComponent {
          spaceCount := spaceCount + 1;
        } else {
          hexCount := hexCount + 1;
        }
      }
    }
    assert s[..|s|] == s;
    if spaceCount == 0 && hexCount == 0 {
      NothingToEncode(s, mode);
      return s;
    }
    EncodedLength(s, mode);
    var t := new byte[|s| + 2 * hexCount];
    if hexCount == 0 {
      EncodedPlainly(s, mode);
      FillPlain(s, t);
      assert t[..] == Encode(s, mode);
      return t[..];
    }
    FillEscaped(s, t, mode);
    return t[..];
  }

  method FillPlain(s: seq<byte>, t: array<byte>)
    requires t.Length == |s|
    modifies t
    ensures forall i :: 0 <= i < |s| ==> t[i] == if s[i] == SPACE then PLUS else s[i]
  {
    for i := 0 to |s|
      invariant forall k :: 0 <= k < i ==> t[k] == s[k]
    {
      t[i] := s[i];
    }
    for i := 0 to |s|
      invariant forall k :: 0 <= k < |s| ==> t[k] == if k < i && s[k] == SPACE then PLUS else s[k]
    {
      if s[i] == SPACE {
        t[i] := PLUS;
      }
    }
  }

  method FillEscaped(s: seq<byte>, t: array<byte>, mode: Encoding)
    requires t.Length == |Encode(s, mode)|
    modifies t
    ensures t[..] == Encode(s, mode)
  {
    var j := 0;
    for i := 0 to |s|
      invariant j == |Encode(s[..i], mode)| <= t.Length
      invariant t[..j] == Encode(s[..i], mode)
    {
      EncodedSoFar(s, i, mode);
      j := FillByte(s[i], t, j, mode);
    }
    assert s[..|s|] == s;
    assert t[..j] == t[..];
  }

  method FillByte(c: byte, t: array<byte>, j: nat, mode: Encoding) returns (next: nat)
    requires j + |EncodeByte(c, mode)| <= t.Length
    modifies t
    ensures next == j + |EncodeByte(c, mode)| && t[..next] == old(t[..j]) + EncodeByte(c, mode)
  {
    if c == SPACE && mode == EncodeQueryComponent {
      t[j] := PLUS;
      next := j + 1;
    } else if ShouldEscape(c) {
      t[j] := PERCENT;
      t[j + 1] := UpperHex(c / 16);
      t[j + 2] := UpperHex(c % 16);
      next := j + 3;
    } else {
      t[j] := c;
      next := j + 1;
    }
  }

  // ---- decoding ----

  lemma DecodeByte(c: byte, rest: seq<byte>, mode: Encoding)
    ensures Decode(EncodeByte(c, mode) + rest, mode) ==
            if Decode(rest, mode).None? then None else Some([c] + Decode(rest, mode).value)
  {
    var e := EncodeByte(c, mode);
    assert (e + rest)[|e|..] == rest;
    if !IsPlus(c, mode) && ShouldEscape(c) {
      HexReadsBack(c / 16);
      HexReadsBack(c % 16);
    }
  }

  lemma HexReadsBack(d: byte)
    requires d < 16
    ensures HexValue(UpperHex(d)) == Some(d)
  {
  }

  lemma {:induction false} DecodeBehind(s: seq<byte>, rest: seq<byte>, mode: Encoding)
    requires Decode(rest, mode).Some?
    ensures Decode(Encode(s, mode) + rest, mode) == Some(s + Decode(rest, mode).value)
  {
    hide EncodeByte, Decode;
    if s == [] {
      assert [] + rest == rest && [] + Decode(rest, mode).value == Decode(rest, mode).value;
    } else {
      var front, c := s[..|s| - 1], s[|s| - 1];
      var e := EncodeByte(c, mode);
      DecodeByte(c, rest, mode);
      DecodeBehind(front, e + rest, mode);
      assert Encode(front, mode) + (e + rest) == Encode(s, mode) + rest;
      assert front + ([c] + Decode(rest, mode).value) == s + Decode(rest, mode).value;
    }
  }

  /** What was encoded is decoded to what it was; different names stay different. */
  lemma DecodeEncode(s: seq<byte>, mode: Encoding)
    ensures Decode(Encode(s, mode), mode) == Some(s)
  {
    DecodeBehind(s, [], mode);
    assert Encode(s, mode) + [] == Encode(s, mode) && s + [] == s;
  }

  /** An encoded name has only letters, digits, the five marks that are kept, and the escapes. */
  lemma {:induction false} EncodedIsSafe(s: seq<byte>, mode: Encoding)
    ensures forall c :: c in Encode(s, mode) ==>
              !ShouldEscape(c) || c == PERCENT || (c == PLUS && mode == EncodeQueryComponent)
  {
    if s != [] { EncodedIsSafe(s[..|s| - 1], mode); }
  }

  /** What names keep: letters, digits, and five other characters. */
  predicate Kept(c: char)
  {
    'A' <= c <= 'Z' || 'a' <= c <= 'z' || '0' <= c <= '9' || c in "-_./*"
  }

  /** A kept byte stays, a space in a query becomes a plus sign, and any other byte becomes an escape. */
  lemma EncodedByte(c: byte, mode: Encoding)
    ensures EncodeByte(c, mode) == [c] <==> Kept(c as char)
    ensures EncodeByte(c, mode) == [PLUS] <==> c == SPACE && mode == EncodeQueryComponent
    ensures EncodeByte(c, mode)[0] == PERCENT <==> !Kept(c as char) && !(c == SPACE && mode == EncodeQueryComponent)
  {
    assert ShouldEscape(c) <==> !Kept(c as char);
  }

  /** A name stays as it is exactly if all its bytes are kept. */
  lemma {:induction false} StaysExactly(s: seq<byte>, mode: Encoding)
    ensures Encode(s, mode) == s <==> forall i :: 0 <= i < |s| ==> Kept(s[i] as char)
  {
    hide EncodeByte;
    if s != [] {
      var front, c := s[..|s| - 1], s[|s| - 1];
      assert s == front + [c];
      StaysExactly(front, mode);
      EncodedByte(c, mode);
      EncodedLength(front, mode);
      LongerByte(c, mode);
    }
  }

  lemma LongerByte(c: byte, mode: Encoding)
    ensures |EncodeByte(c, mode)| >= 1 && (|EncodeByte(c, mode)| == 1 ==> EncodeByte(c, mode) in [[c], [PLUS]])
  {
  }
}
