/** Completing a multipart upload: checking its parts, naming them in a header, and reading them as one object. */
module Multipart {
  import opened CompletedParts
  import opened Dare
  import opened Strings
  import opened Wrappers

  const UPLOAD_MIN_SIZE := 5 * 1048576

  /** What a caller names to complete an upload. */
  datatype CompletedPart = CompletedPart(partNumber: int, etag: string)

  datatype CompleteError = InvalidPartOrder | InvalidPart | EntityTooSmall | TooLargeToEncrypt

  /** What is stored: the parts in order, the plain size, the size of the stored payload, and the header. */
  datatype Completed = Completed(parts: seq<PartInfo>, size: int, storedSize: int, header: string)

  datatype Completion = Done(upload: Completed) | Refused(error: CompleteError)

  /** 64-bit signed addition wraps around. */
  function Wrap64(n: int): (r: int)
    ensures IsInt64(r) && (IsInt64(n) ==> r == n)
  {
    var m := n % 0x1_0000_0000_0000_0000;
    if m <= MAX_INT then m else m - 0x1_0000_0000_0000_0000
  }

  function WrapU64(n: nat): nat { n % 0x1_0000_0000_0000_0000 }

  /** The part of an upload that a caller means, if there is one with the same ETag. */
  predicate Matching(known: map<int, PartInfo>, p: CompletedPart)
  {
    p.partNumber in known && known[p.partNumber].etag == p.etag
  }

  predicate Ascending(parts: seq<CompletedPart>)
  {
    forall i, j :: 0 <= i < j < |parts| ==> parts[i].partNumber < parts[j].partNumber
  }

  /** The part at `i` may be there: it matches, is large enough unless it is the last one, and can be encrypted. */
  ghost predicate Acceptable(known: map<int, PartInfo>, parts: seq<CompletedPart>, i: nat, encrypted: bool)
    requires i < |parts|
  {
    && Matching(known, parts[i])
    && (i < |parts| - 1 ==> known[parts[i].partNumber].size >= UPLOAD_MIN_SIZE)
    && (encrypted ==> known[parts[i].partNumber].size <= MAX_SIZE)
  }

  /** Known parts are under their numbers, and have sizes that fit 64 bits and are not negative. */
  ghost predicate ValidParts(known: map<int, PartInfo>)
  {
    forall n :: n in known ==> known[n].number == n && IsInt64(n) && 0 <= known[n].size <= MAX_INT
  }

  /** The uploaded parts that a caller names, in order. */
  ghost predicate Chosen(infos: seq<PartInfo>, known: map<int, PartInfo>, parts: seq<CompletedPart>)
  {
    && |infos| == |parts|
    && forall i :: 0 <= i < |parts| ==> parts[i].partNumber in known && infos[i] == known[parts[i].partNumber]
  }

  ghost predicate NonNegative(parts: seq<PartInfo>)
  {
    forall i :: 0 <= i < |parts| ==> parts[i].size >= 0
  }

  function PlainSum(parts: seq<PartInfo>): int
  {
    if parts == [] then 0 else PlainSum(parts[..|parts| - 1]) + parts[|parts| - 1].size
  }

  ghost function EncSum(parts: seq<PartInfo>): nat
    requires NonNegative(parts)
  {
    if parts == [] then 0 else EncSum(parts[..|parts| - 1]) + EncSize(parts[|parts| - 1].size)
  }

  /** The header so far: entries with a comma behind each but the very last one. */
  function HeaderSoFar(parts: seq<PartInfo>, total: nat): string
  {
    if parts == [] then ""
    else
      HeaderSoFar(parts[..|parts| - 1], total) + ToHeaderString(parts[|parts| - 1]) +
      if |parts| < total then "," else ""
  }

  lemma {:induction false} HeaderGrows(parts: seq<PartInfo>, total: nat)
    requires parts != [] && |parts| <= total
    ensures HeaderSoFar(parts, total) == Header(parts) + if |parts| < total then "," else ""
  {
    hide ToHeaderString;
    var last := |parts| - 1;
    if last > 0 {
      HeaderGrows(parts[..last], total);
      assert Entries(parts) == Entries(parts[..last]) + [ToHeaderString(parts[last])];
      JoinSnoc(Entries(parts[..last]), ToHeaderString(parts[last]), ',');
    } else {
      assert parts[..0] == [] && Entries(parts) == [ToHeaderString(parts[0])];
    }
  }

  /** The object that is stored for some parts. */
  ghost predicate Assembled(c: Completed, known: map<int, PartInfo>, parts: seq<CompletedPart>, encrypted: bool)
  {
    && Chosen(c.parts, known, parts) && NonNegative(c.parts) && c.header == Header(c.parts)
    && c.size == Wrap64(PlainSum(c.parts))
    && c.storedSize == if encrypted then Wrap64(EncSum(c.parts)) else c.size
  }

  /** Checks the parts that a caller names and puts an object together from them. */
  method CompleteMultipartUpload(known: map<int, PartInfo>, parts: seq<CompletedPart>, encrypted: bool)
    returns (r: Completion)
    requires ValidParts(known)
    ensures r.Done? <==> Ascending(parts) && forall i :: 0 <= i < |parts| ==> Acceptable(known, parts, i, encrypted)
    ensures r.Done? ==> Assembled(r.upload, known, parts, encrypted)
    ensures r.Done? ==> Ordered(r.upload.parts) && LargeEnough(r.upload.parts)
    ensures r.Done? && parts != [] ==> (ReadsBack(r.upload.parts) <==> AllReadable(r.upload.parts))
    ensures r.Refused? ==> (r.error == InvalidPartOrder <==> !Ascending(parts))
    ensures r.Refused? && r.error != InvalidPartOrder && |parts| <= |known| ==>
              exists i :: 0 <= i < |parts| && FirstRefused(known, parts, i, encrypted, r.error)
  {
    var i := 1;
    while i < |parts|
      invariant 1 <= i && forall j, k :: 0 <= j < k < i && k < |parts| ==> parts[j].partNumber < parts[k].partNumber
    {
      if parts[i].partNumber <= parts[i - 1].partNumber {
        return Refused(InvalidPartOrder);
      }
      i := i + 1;
    }
    if |known| < |parts| {
      TooMany(known, parts);
      ghost var k :| 0 <= k < |parts| && parts[k].partNumber !in known;
      assert !Acceptable(known, parts, k, encrypted);
      return Refused(InvalidPart);
    }
    r := ChooseParts(known, parts, encrypted);
    if r.Done? {
      ChosenOrdered(known, parts, r.upload.parts);
      ChosenLarge(known, parts, encrypted, r.upload.parts);
      if parts != [] { StoredHeader(r.upload.parts, known, parts); }
    }
  }

  /** The first part that may not be there, and why. */
  ghost predicate FirstRefused(known: map<int, PartInfo>, parts: seq<CompletedPart>, i: nat, encrypted: bool,
                               error: CompleteError)
    requires i < |parts|
  {
    && (forall j :: 0 <= j < i ==> Acceptable(known, parts, j, encrypted)) && !Acceptable(known, parts, i, encrypted)
    && error == if !Matching(known, parts[i]) then InvalidPart
                else if i < |parts| - 1 && known[parts[i].partNumber].size < UPLOAD_MIN_SIZE then EntityTooSmall
                else TooLargeToEncrypt
  }

  /** More parts than an upload has cannot all match. */
  lemma TooMany(known: map<int, PartInfo>, parts: seq<CompletedPart>)
    requires Ascending(parts) && |known| < |parts|
    ensures exists i :: 0 <= i < |parts| && parts[i].partNumber !in known
  {
    if forall i :: 0 <= i < |parts| ==> parts[i].partNumber in known {
      NumbersDiffer(known.Keys, parts);
    }
  }

  lemma {:induction false} NumbersDiffer(keys: set<int>, parts: seq<CompletedPart>)
    requires Ascending(parts) && forall i :: 0 <= i < |parts| ==> parts[i].partNumber in keys
    ensures |parts| <= |keys|
  {
    if parts != [] {
      var last := |parts| - 1;
      assert forall i :: 0 <= i < last ==> parts[..last][i] == parts[i];
      NumbersDiffer(keys - {parts[last].partNumber}, parts[..last]);
    }
  }

  ghost predicate SoFar(known: map<int, PartInfo>, parts: seq<CompletedPart>, i: nat, encrypted: bool,
                        infos: seq<PartInfo>, size: int, encSize: nat, header: string)
    requires i <= |parts|
  {
    && (forall j :: 0 <= j < i ==> Acceptable(known, parts, j, encrypted))
    && Chosen(infos, known, parts[..i]) && NonNegative(infos)
    && size == Wrap64(PlainSum(infos)) && header == HeaderSoFar(infos, |parts|)
    && (encrypted ==> encSize == WrapU64(EncSum(infos)))
  }

  method ChooseParts(known: map<int, PartInfo>, parts: seq<CompletedPart>, encrypted: bool) returns (r: Completion)
    requires ValidParts(known)
    ensures r.Done? <==> forall i :: 0 <= i < |parts| ==> Acceptable(known, parts, i, encrypted)
    ensures r.Done? ==> Assembled(r.upload, known, parts, encrypted)
    ensures r.Refused? ==> exists i :: 0 <= i < |parts| && FirstRefused(known, parts, i, encrypted, r.error)
    ensures r.Refused? ==> r.error != InvalidPartOrder
  {
    hide ToHeaderString, EncSize, Wrap64, WrapU64;
    var infos, size, header := [], 0, "";
    var encSize: nat := 0;
    NothingYet(known, parts, encrypted);
    for i := 0 to |parts|
      invariant SoFar(known, parts, i, encrypted, infos, size, encSize, header)
    {
      var part := parts[i];
      if part.partNumber !in known || part.etag != known[part.partNumber].etag {
        assert FirstRefused(known, parts, i, encrypted, InvalidPart);
        return Refused(InvalidPart);
      }
      var info := known[part.partNumber];
      if i != |parts| - 1 && info.size < UPLOAD_MIN_SIZE {
        assert FirstRefused(known, parts, i, encrypted, EntityTooSmall);
        return Refused(EntityTooSmall);
      }
      if encrypted && info.size > MAX_SIZE {
        assert FirstRefused(known, parts, i, encrypted, TooLargeToEncrypt);
        return Refused(TooLargeToEncrypt);
      }
      OneMore(known, parts, i, encrypted, infos, size, encSize, header);
      infos := infos + [info];
      size := Wrap64(size + info.size);
      if encrypted {
        encSize := WrapU64(encSize + EncSize(info.size));
      }
      header := header + ToHeaderString(info) + if i != |parts| - 1 then "," else "";
    }
    assert parts[..|parts|] == parts;
    if infos != [] {
      HeaderGrows(infos, |parts|);
    }
    if encrypted {
      SignedSum(EncSum(infos));
    }
    r := Done(Completed(infos, size, if encrypted then Wrap64(encSize) else size, header));
  }

  lemma NothingYet(known: map<int, PartInfo>, parts: seq<CompletedPart>, encrypted: bool)
    ensures SoFar(known, parts, 0, encrypted, [], 0, 0, "")
  {
  }

  lemma SignedSum(n: nat)
    ensures Wrap64(WrapU64(n)) == Wrap64(n)
  {
  }

  lemma WrapStep(a: int, b: int)
    ensures Wrap64(Wrap64(a) + b) == Wrap64(a + b)
  {
    var m := 0x1_0000_0000_0000_0000;
    assert Wrap64(a) % m == a % m;
    assert (Wrap64(a) + b) % m == (a + b) % m;
  }

  lemma WrapStepU(a: nat, b: nat)
    ensures WrapU64(WrapU64(a) + b) == WrapU64(a + b)
  {
    var m := 0x1_0000_0000_0000_0000;
    var q, r := a / m, a % m;
    assert a + b == q * m + (r + b);
    assert (r + b) % m == (q * m + (r + b)) % m;
  }

  lemma OneMore(known: map<int, PartInfo>, parts: seq<CompletedPart>, i: nat, encrypted: bool,
                infos: seq<PartInfo>, size: int, encSize: nat, header: string)
    requires i < |parts| && SoFar(known, parts, i, encrypted, infos, size, encSize, header)
    requires Acceptable(known, parts, i, encrypted) && known[parts[i].partNumber].size >= 0
    ensures var info := known[parts[i].partNumber];
            SoFar(known, parts, i + 1, encrypted, infos + [info], Wrap64(size + info.size),
                  if encrypted then WrapU64(encSize + EncSize(info.size)) else encSize,
                  header + ToHeaderString(info) + if i != |parts| - 1 then "," else "")
  {
    hide ToHeaderString, EncSize, Wrap64, WrapU64;
    var info := known[parts[i].partNumber];
    var more := infos + [info];
    assert parts[..i + 1] == parts[..i] + [parts[i]];
    assert more[..i] == infos && more[i] == info;
    WrapStep(PlainSum(infos), info.size);
    WrapStepU(EncSum(infos), EncSize(info.size));
  }

  // ---- what a completed upload promises ----

  ghost predicate Ordered(infos: seq<PartInfo>)
  {
    forall i, j :: 0 <= i < j < |infos| ==> infos[i].number < infos[j].number
  }

  ghost predicate LargeEnough(infos: seq<PartInfo>)
  {
    forall i :: 0 <= i < |infos| - 1 ==> infos[i].size >= UPLOAD_MIN_SIZE
  }

  ghost predicate AllReadable(infos: seq<PartInfo>)
  {
    forall i :: 0 <= i < |infos| ==> Readable(infos[i])
  }

  /** The chosen parts are in the order of their numbers. */
  lemma ChosenOrdered(known: map<int, PartInfo>, parts: seq<CompletedPart>, infos: seq<PartInfo>)
    requires ValidParts(known) && Ascending(parts) && Chosen(infos, known, parts)
    ensures Ordered(infos)
  {
    forall i | 0 <= i < |infos| ensures infos[i].number == parts[i].partNumber {}
  }

  lemma ChosenLarge(known: map<int, PartInfo>, parts: seq<CompletedPart>, encrypted: bool, infos: seq<PartInfo>)
    requires Chosen(infos, known, parts) && forall i :: 0 <= i < |parts| ==> Acceptable(known, parts, i, encrypted)
    ensures LargeEnough(infos)
  {
    forall i | 0 <= i < |infos| - 1
      ensures infos[i].size >= UPLOAD_MIN_SIZE
    {
      assert Acceptable(known, parts, i, encrypted);
    }
  }

  /** A reader takes exactly the stored parts from the header exactly if their entries are readable. */
  lemma StoredHeader(infos: seq<PartInfo>, known: map<int, PartInfo>, parts: seq<CompletedPart>)
    requires ValidParts(known) && Chosen(infos, known, parts) && infos != []
    ensures ReadsBack(infos) <==> AllReadable(infos)
  {
    hide ReadsBack, Readable;
    forall i | 0 <= i < |infos| ensures IsInt64(infos[i].number) && IsInt64(infos[i].size) {}
    HeaderReadsBack(infos);
  }

  // ---- reading the parts as one object ----

  type Bytes = seq<byte>

  datatype Status = More | Ended | Broken

  /** The payload of one part. It may come in pieces of any size, and its end with the last piece or behind it. */
  class PartReader {
    /** A storage whose calls succeed and deliver something unless there is nothing left. */
    const reliable: bool
    var rest: Bytes

    constructor (payload: Bytes, reliable: bool)
      ensures rest == payload && this.reliable == reliable
    {
      rest, this.reliable := payload, reliable;
    }

    method Read(room: nat) returns (data: Bytes, status: Status)
      modifies this
      ensures |data| <= room && (status != Broken ==> old(rest) == data + rest) && (status == Ended ==> rest == [])
      ensures data <= old(rest)
      ensures reliable ==> status != Broken && (room > 0 && status == More ==> data != [])
    {
      var n :| 0 <= n <= |rest| && n <= room && (reliable && room > 0 && rest != [] ==> n > 0);
      var nothing := rest == [];
      data, rest := rest[..n], rest[n..];
      var ends, broken := *, *;
      status := if broken && !reliable then Broken
                else if (ends || (reliable && nothing)) && rest == [] then Ended
                else More;
    }
  }

  function Joined(payloads: seq<Bytes>): Bytes
  {
    if payloads == [] then [] else payloads[0] + Joined(payloads[1..])
  }

  class MultiObjectReader {
    const reliable: bool
    var curReader: PartReader?
    /** The payloads of the parts that were not opened yet. */
    var parts: seq<Bytes>

    constructor (payloads: seq<Bytes>, reliable: bool)
      ensures curReader == null && parts == payloads && Remaining() == Joined(payloads) && this.reliable == reliable
    {
      curReader, parts, this.reliable := null, payloads, reliable;
    }

    ghost predicate Valid()
      reads this
    {
      curReader != null ==> curReader.reliable == reliable
    }

    /** What is still to be read. */
    ghost function Remaining(): Bytes
      reads this, curReader
    {
      (if curReader == null then [] else curReader.rest) + Joined(parts)
    }

    /** Opens the next part, which may fail. */
    method OpenNext() returns (ok: bool)
      requires parts != [] && Valid()
      modifies this
      ensures Valid() && (reliable ==> ok)
      ensures ok ==> curReader != null && fresh(curReader) && Remaining() == old(Joined(parts))
      ensures ok ==> |parts| == |old(parts)| - 1
      ensures !ok ==> curReader == old(curReader) && parts == old(parts)
    {
      ok := *;
      if ok || reliable {
        ok := true;
        curReader := new PartReader(parts[0], reliable);
        parts := parts[1..];
      }
    }

    /** Reads from the open part. */
    method ReadCurrent(room: nat) returns (data: Bytes, status: Status)
      requires Valid()
      modifies curReader
      ensures reliable ==> status != Broken && (room > 0 && status == More ==> data != [])
      ensures |data| <= room && (status != Broken ==> old(Remaining()) == data + Remaining())
      ensures data <= old(Remaining())
      ensures status == Ended ==> Remaining() == Joined(parts)
    {
      if curReader == null {
        assert Remaining() == Joined(parts);
        return [], Ended;
      }
      data, status := curReader.Read(room);
    }

    /** Reads on, over the end of a part if need be. It breaks only if the storage does. */
    method Read(room: nat) returns (data: Bytes, status: Status)
      requires Valid()
      modifies this, curReader
      ensures Valid() && (reliable ==> status != Broken && (room > 0 && status == More ==> data != []))
      ensures |data| <= room && (curReader == old(curReader) || fresh(curReader))
      ensures status != Broken ==> old(Remaining()) == data + Remaining()
      ensures data <= old(Remaining())
      ensures status == Ended ==> Remaining() == []
      ensures |parts| <= |old(parts)|
      decreases |parts|
    {
      hide Remaining, Joined;
      data, status := ReadCurrent(room);
      if status != Ended {
        return;
      }
      if |parts| == 0 {
        NothingJoined();
        return data, Ended;
      }
      ghost var left := Remaining();
      var opens := OpenNext();
      if !opens {
        return data, Broken;
      }
      var next;
      next, status := Read(room - |data|);
      assert status != Broken ==> data + left == data + next + Remaining();
      data := data + next;
    }
  }

  lemma NothingJoined()
    ensures Joined([]) == []
  {
  }

  /**
   Reads with buffers of any sizes until the end: the bytes are those of all parts in order. With a reliable storage
   and as many buffers as there are bytes, and one more, the end is reached.
   */
  method ReadParts(payloads: seq<Bytes>, rooms: seq<nat>, reliable: bool) returns (read: Bytes, status: Status)
    ensures read <= Joined(payloads)
    ensures status == Ended ==> read == Joined(payloads)
    ensures reliable ==> status != Broken
    ensures reliable && |rooms| > |Joined(payloads)| && (forall i :: 0 <= i < |rooms| ==> rooms[i] > 0) ==>
              status == Ended
  {
    hide Joined, MultiObjectReader.Remaining;
    var reader := new MultiObjectReader(payloads, reliable);
    read, status := [], More;
    for k := 0 to |rooms|
      invariant status == More && read + reader.Remaining() == Joined(payloads) && reader.Valid()
      invariant fresh(reader) && (reader.curReader != null ==> fresh(reader.curReader))
      invariant reader.reliable && (forall i :: 0 <= i < |rooms| ==> rooms[i] > 0) ==> |read| >= k
    {
      var data;
      ghost var before := reader.Remaining();
      data, status := reader.Read(rooms[k]);
      assert status != Broken ==> read + before == read + data + reader.Remaining();
      read := read + data;
      if status != More {
        return;
      }
    }
  }
}
