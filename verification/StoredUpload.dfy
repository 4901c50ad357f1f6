/** Reading a completed encrypted upload: what its headers say about its parts is what the reader needs. */
module StoredUploads {
  import opened CompletedParts
  import opened Dare
  import opened Decrypters
  import opened RangePlan
  import opened Strings
  import opened Wrappers
  import M = Multipart

  /** The headers of a stored object that name its completed parts and its plain size. */
  datatype Headers = Headers(completedParts: string, decryptedSize: string)

  /** What they are read as. */
  datatype Description = Description(size: nat, sizes: seq<nat>)

  function Unsigned(parts: seq<Part>): (r: seq<nat>)
    ensures |r| == |parts| && forall i :: 0 <= i < |parts| ==> r[i] == Wrap(parts[i].size)
  {
    seq(|parts|, i requires 0 <= i < |parts| => Wrap(parts[i].size))
  }

  /** Reads the headers: the plain size and the sizes of the parts, or none if one cannot be read. */
  method Describe(h: Headers) returns (r: Option<Description>)
    ensures r.Some? <==> ParseUint(h.decryptedSize).Some? && ParseHeader(h.completedParts).Some?
    ensures r.Some? ==>
              r.value == Description(ParseUint(h.decryptedSize).value, Unsigned(ParseHeader(h.completedParts).value))
  {
    hide ParseCompletedPartHeader, Split, ParseUint, Wrap;
    var size := ParseUint(h.decryptedSize);
    if size.None? {
      return None;
    }
    var splits := Split(h.completedParts, ',');
    ParseAllIs(splits);
    var sizes: seq<nat> := [];
    for i := 0 to |splits|
      invariant |sizes| == i && forall j :: 0 <= j < i ==> ParseCompletedPartHeader(splits[j]).Some?
      invariant forall j :: 0 <= j < i ==> sizes[j] == Wrap(ParseCompletedPartHeader(splits[j]).value.size)
    {
      var part := ParseCompletedPartHeader(splits[i]);
      if part.None? {
        return None;
      }
      sizes := sizes + [Wrap(part.value.size)];
    }
    assert sizes == Unsigned(ParseHeader(h.completedParts).value);
    return Some(Description(size.value, sizes));
  }

  function Sizes(payloads: seq<M.Bytes>): (r: seq<nat>)
    ensures |r| == |payloads| && forall i :: 0 <= i < |payloads| ==> r[i] == |payloads[i]|
  {
    seq(|payloads|, i requires 0 <= i < |payloads| => |payloads[i]|)
  }

  /** The plaintext of the parts of an upload; all of it fits the format. */
  ghost predicate Payloads(infos: seq<PartInfo>, payloads: seq<M.Bytes>)
  {
    && |infos| == |payloads| && (forall i :: 0 <= i < |infos| ==> infos[i].size == |payloads[i]|)
    && WithinLimits(Sizes(payloads))
  }

  lemma {:induction false} JoinedLength(payloads: seq<M.Bytes>, k: nat)
    requires k <= |payloads|
    ensures |M.Joined(payloads)| == PlainStart(Sizes(payloads), k) + |M.Joined(payloads[k..])|
    decreases k
  {
    if k > 0 {
      JoinedLength(payloads, k - 1);
      assert payloads[k - 1..][1..] == payloads[k..];
    } else {
      assert payloads[0..] == payloads;
    }
  }

  lemma {:induction false} PlainSumIs(infos: seq<PartInfo>, sizes: seq<nat>, k: nat)
    requires k <= |infos| == |sizes| && forall i :: 0 <= i < |infos| ==> infos[i].size == sizes[i]
    ensures M.PlainSum(infos[..k]) == PlainStart(sizes, k)
  {
    if k > 0 {
      PlainSumIs(infos, sizes, k - 1);
      assert infos[..k][..k - 1] == infos[..k - 1];
    }
  }

  /** What completing an upload stores, with entries that can be read. */
  ghost predicate Stored(c: M.Completed, payloads: seq<M.Bytes>)
  {
    && Payloads(c.parts, payloads) && M.LargeEnough(c.parts) && M.AllReadable(c.parts)
    && (forall i :: 0 <= i < |c.parts| ==> IsInt64(c.parts[i].number))
    && c.header == Header(c.parts) && c.size == M.Wrap64(M.PlainSum(c.parts))
  }

  /** The headers describe the object as it is, and its parts are what the reader requires. */
  lemma HeadersDescribe(c: M.Completed, payloads: seq<M.Bytes>)
    requires Stored(c, payloads)
    ensures StoredObject(M.Joined(payloads), true, Sizes(payloads)).Valid()
    ensures ParseUint(Itoa(c.size)) == Some(|M.Joined(payloads)|)
    ensures ParseHeader(c.header).Some? && Unsigned(ParseHeader(c.header).value) == Sizes(payloads)
  {
    hide ParseHeader, Header, ParseUint, Payloads, M.AllReadable, M.LargeEnough, M.PlainSum, Unsigned;
    SumsAre(c.parts, payloads);
    PartsAreLarge(c.parts, payloads);
    SizeReadsBack(c.size);
    SizesReadBack(c.parts, payloads);
  }

  lemma SizeReadsBack(n: nat)
    requires n <= MAX_INT
    ensures ParseUint(Itoa(n)) == Some(n)
  {
    DecimalRoundTrip(n);
  }

  lemma SumsAre(infos: seq<PartInfo>, payloads: seq<M.Bytes>)
    requires Payloads(infos, payloads)
    ensures M.PlainSum(infos) == PlainStart(Sizes(payloads), |payloads|) == |M.Joined(payloads)| <= MAX_INT
  {
    JoinedLength(payloads, |payloads|);
    assert payloads[|payloads|..] == [] && infos[..|infos|] == infos;
    PlainSumIs(infos, Sizes(payloads), |infos|);
  }

  lemma PartsAreLarge(infos: seq<PartInfo>, payloads: seq<M.Bytes>)
    requires Payloads(infos, payloads) && M.LargeEnough(infos)
    ensures |infos| == |payloads| && WithinLimits(Sizes(payloads))
    ensures forall i :: 0 <= i < |payloads| - 1 ==> Sizes(payloads)[i] > 0
  {
  }

  /** The header is read as the sizes of the parts. */
  lemma SizesReadBack(infos: seq<PartInfo>, payloads: seq<M.Bytes>)
    requires Payloads(infos, payloads) && M.AllReadable(infos)
    requires forall i :: 0 <= i < |infos| ==> IsInt64(infos[i].number)
    ensures ParseHeader(Header(infos)).Some? && Unsigned(ParseHeader(Header(infos)).value) == Sizes(payloads)
  {
    hide ParseHeader, Header;
    var sizes, parts := Sizes(payloads), AsParts(infos);
    StartsAbove(sizes);
    HeaderReadsBack(infos);
    forall i | 0 <= i < |sizes| ensures Unsigned(parts)[i] == sizes[i] { WrapIs(parts[i].size); }
    assert Unsigned(parts) == sizes;
  }

  /** No part is longer than all of them. */
  lemma StartsAbove(sizes: seq<nat>)
    requires WithinLimits(sizes)
    ensures forall i :: 0 <= i < |sizes| ==> sizes[i] <= MAX_INT
  {
  }

  /**
   Reading an upload as it was stored: without a range all parts joined in order, and a range exactly if the
   sizes of the parts allow for it.
   */
  method ReadUpload(c: M.Completed, payloads: seq<M.Bytes>, range: Option<Range>) returns (written: M.Bytes, ok: bool)
    requires Stored(c, payloads) && M.Joined(payloads) != []
    requires range.Some? && range.value.start <= range.value.end ==> range.value.end < |M.Joined(payloads)|
    ensures range.None? ==> ok && written == M.Joined(payloads)
    ensures range.Some? && range.value.start <= range.value.end ==>
              var start, end := range.value.start, range.value.end;
              && ValidRange(Sizes(payloads), start, end) && written <= M.Joined(payloads)[start..end + 1]
              && (ok && written == M.Joined(payloads)[start..end + 1] <==> Serves(Sizes(payloads), start, end))
    ensures range.Some? && range.value.start > range.value.end ==> !ok && written == []
  {
    hide Stored, ParseUint, ParseHeader, Serves, M.Joined;
    HeadersDescribe(c, payloads);
    var d := Describe(Headers(c.header, Itoa(c.size)));
    ghost var steps;
    written, ok, steps := GetObject(StoredObject(M.Joined(payloads), true, d.value.sizes), range);
  }

  lemma {:induction false} EncSumIs(infos: seq<PartInfo>, sizes: seq<nat>, k: nat)
    requires M.NonNegative(infos)
    requires k <= |infos| == |sizes| && forall i :: 0 <= i < |infos| ==> infos[i].size == sizes[i]
    ensures M.EncSum(infos[..k]) == EncStart(sizes, k)
  {
    hide EncSize;
    if k > 0 {
      EncSumIs(infos, sizes, k - 1);
      assert infos[..k][..k - 1] == infos[..k - 1];
    }
  }

  /** What completing an upload puts together is stored so, in the bytes that its parts take encrypted. */
  lemma CompletedIsStored(known: map<int, PartInfo>, parts: seq<M.CompletedPart>, c: M.Completed,
                          payloads: seq<M.Bytes>)
    requires M.ValidParts(known) && M.Assembled(c, known, parts, true) && M.LargeEnough(c.parts)
    requires M.AllReadable(c.parts) && Payloads(c.parts, payloads)
    ensures Stored(c, payloads) && c.storedSize == EncStart(Sizes(payloads), |payloads|)
  {
    hide EncSize, Header, Readable;
    forall i | 0 <= i < |c.parts| ensures IsInt64(c.parts[i].number) {}
    EncSumIs(c.parts, Sizes(payloads), |payloads|);
    assert c.parts[..|payloads|] == c.parts;
  }

  /** Parts whose payloads are at hand and whose entries can be read. */
  ghost predicate AtHand(known: map<int, PartInfo>, parts: seq<M.CompletedPart>, payloads: seq<M.Bytes>)
  {
    && |payloads| == |parts| && WithinLimits(Sizes(payloads))
    && forall i :: 0 <= i < |parts| && parts[i].partNumber in known ==>
         Readable(known[parts[i].partNumber]) && known[parts[i].partNumber].size == |payloads[i]|
  }

  /** Completing an upload and reading it back: all parts joined in order. */
  method CompleteAndRead(known: map<int, PartInfo>, parts: seq<M.CompletedPart>, payloads: seq<M.Bytes>)
    returns (completion: M.Completion, read: M.Bytes, ok: bool)
    requires M.ValidParts(known) && AtHand(known, parts, payloads) && M.Joined(payloads) != []
    ensures completion.Done? <==>
            M.Ascending(parts) && forall i :: 0 <= i < |parts| ==> M.Acceptable(known, parts, i, true)
    ensures ok <==> completion.Done?
    ensures read == if ok then M.Joined(payloads) else []
  {
    hide M.Acceptable, M.Joined, ReadsBack, WithinLimits, Readable, Stored, Header;
    completion := M.CompleteMultipartUpload(known, parts, true);
    if completion.Refused? {
      return completion, [], false;
    }
    CompletedIsStored(known, parts, completion.upload, payloads);
    read, ok := ReadUpload(completion.upload, payloads, None);
  }
}
