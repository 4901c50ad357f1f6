/**
 Data At Rest Encryption 2.0: the layout of an encrypted object as a concatenation of encrypted
 parts, and the contract of the reader that decrypts a run of whole packages.
 Every part is cut into packages of BLOCK payload bytes (the last one may be shorter); each package
 grows by OVERHEAD bytes when encrypted.
 */
module Dare {
  import opened Wrappers
  const BLOCK := 65536
  const OVERHEAD := 32
  const PACKAGE := 65568
  /** Largest plaintext that the format can hold (2^32 packages). */
  const MAX_SIZE := 0x1_0000_0000_0000

  type byte = x: int | 0 <= x < 256

  /** Size of the encryption of `size` plaintext bytes. */
  function EncSize(size: nat): (r: nat)
  {
    size / BLOCK * PACKAGE + if size % BLOCK > 0 then size % BLOCK + OVERHEAD else 0
  }

  /** Size of the plaintext in `size` encrypted bytes; meaningful for sizes that encryption produces. */
  function DecSize(size: nat): (r: nat)
  {
    size / PACKAGE * BLOCK +
    if size % PACKAGE > OVERHEAD then size % PACKAGE - OVERHEAD else 0
  }

  lemma DecSizeInvertsEncSize(size: nat)
    ensures DecSize(EncSize(size)) == size
  {
    var q, m := size / BLOCK, size % BLOCK;
    if m > 0 {
      assert EncSize(size) == q * PACKAGE + (m + OVERHEAD);
      assert EncSize(size) / PACKAGE == q && EncSize(size) % PACKAGE == m + OVERHEAD;
    } else {
      assert EncSize(size) == q * PACKAGE;
    }
  }

  lemma EncSizeStrictlyMonotone(a: nat, b: nat)
    requires a < b
    ensures EncSize(a) < EncSize(b)
  {
    if a / BLOCK == b / BLOCK {
    } else {
      assert a / BLOCK + 1 <= b / BLOCK;
    }
  }

  /** Plaintext offset at which part `i` begins. */
  function PlainStart(sizes: seq<nat>, i: nat): nat
    requires i <= |sizes|
  {
    if i == 0 then 0 else PlainStart(sizes, i - 1) + sizes[i - 1]
  }

  /** Encrypted offset at which part `i` begins. */
  function EncStart(sizes: seq<nat>, i: nat): nat
    requires i <= |sizes|
  {
    if i == 0 then 0 else EncStart(sizes, i - 1) + EncSize(sizes[i - 1])
  }

  lemma {:induction false} StartsMonotone(sizes: seq<nat>, i: nat, j: nat)
    requires i <= j <= |sizes|
    ensures PlainStart(sizes, i) <= PlainStart(sizes, j)
    ensures EncStart(sizes, i) <= EncStart(sizes, j)
    decreases j
  {
    if i < j {
      StartsMonotone(sizes, i, j - 1);
    }
  }

  /** Parts within the format's size limit whose concatenation fits a signed 64-bit length. */
  ghost predicate WithinLimits(sizes: seq<nat>)
  {
    && |sizes| > 0
    && (forall i :: 0 <= i < |sizes| ==> sizes[i] <= MAX_SIZE)
    && PlainStart(sizes, |sizes|) < 0x8000_0000_0000_0000
    && EncStart(sizes, |sizes|) < 0x8000_0000_0000_0000
  }

  /** The part that holds plaintext byte `pos`, counted from part `i`; |sizes| when there is none. */
  function PartOf(sizes: seq<nat>, pos: nat, i: nat): (r: nat)
    requires i <= |sizes|
    ensures i <= r <= |sizes|
    ensures r < |sizes| ==> pos < PlainStart(sizes, r + 1)
    ensures PlainStart(sizes, i) <= pos ==> PlainStart(sizes, r) <= pos
    ensures i < |sizes| && pos < PlainStart(sizes, |sizes|) ==> r < |sizes|
    decreases |sizes| - i
  {
    if i == |sizes| then i
    else if pos < PlainStart(sizes, i + 1) then i
    else PartOf(sizes, pos, i + 1)
  }

  lemma PartOfUnique(sizes: seq<nat>, pos: nat, i: nat, r: nat)
    requires i <= r < |sizes|
    requires PlainStart(sizes, r) <= pos < PlainStart(sizes, r + 1)
    ensures PartOf(sizes, pos, i) == r
    decreases r - i
  {
    if i < r {
      StartsMonotone(sizes, i + 1, r);
      PartOfUnique(sizes, pos, i + 1, r);
    }
  }

  /** The part that holds encrypted byte `pos`, counted from part `i`. */
  function EncPartOf(sizes: seq<nat>, pos: nat, i: nat): (r: nat)
    requires i <= |sizes|
    ensures i <= r <= |sizes|
    decreases |sizes| - i
  {
    if i == |sizes| then i
    else if pos < EncStart(sizes, i + 1) then i
    else EncPartOf(sizes, pos, i + 1)
  }

  lemma EncPartOfUnique(sizes: seq<nat>, pos: nat, i: nat, r: nat)
    requires i <= r < |sizes|
    requires EncStart(sizes, r) <= pos < EncStart(sizes, r + 1)
    ensures EncPartOf(sizes, pos, i) == r
    decreases r - i
  {
    if i < r {
      StartsMonotone(sizes, i + 1, r);
      EncPartOfUnique(sizes, pos, i + 1, r);
    }
  }

  lemma EncPartOfEnd(sizes: seq<nat>, pos: nat, i: nat)
    requires i <= |sizes|
    requires EncStart(sizes, |sizes|) <= pos
    ensures EncPartOf(sizes, pos, i) == |sizes|
    decreases |sizes| - i
  {
    if i < |sizes| {
      StartsMonotone(sizes, i + 1, |sizes|);
      EncPartOfEnd(sizes, pos, i + 1);
    }
  }

  /** Plaintext end of package `q` of a part, relative to the part. */
  function PackagePlainEnd(size: nat, q: nat): nat { Min((q + 1) * BLOCK, size) }

  /** Encrypted end of package `q` of a part, relative to the part. */
  function PackageEncEnd(size: nat, q: nat): nat { Min((q + 1) * PACKAGE, EncSize(size)) }


  /** A stretch of plaintext, `lo` inclusive and `hi` exclusive. */
  datatype Interval = Interval(lo: nat, hi: nat)

  /**
   Opening one package. The reader takes a full package, or whatever is left when less than that
   is `avail`able, and succeeds only if those bytes are exactly package `q` of one part: a package is
   authenticated together with its sequence number and its length.
   */
  function OpenPackage(sizes: seq<nat>, pos: nat, avail: nat, q: nat): Option<Interval>
  {
    var i := EncPartOf(sizes, pos, 0);
    if i < |sizes| && pos == EncStart(sizes, i) + q * PACKAGE && q * PACKAGE < EncSize(sizes[i]) &&
       Min(PACKAGE, avail) == PackageEncEnd(sizes[i], q) - q * PACKAGE
    then Some(Interval(PlainStart(sizes, i) + q * BLOCK, PlainStart(sizes, i) + PackagePlainEnd(sizes[i], q)))
    else None
  }

  /**
   How far into a part of `size` plaintext bytes a reader gets whose input ends `rel` encrypted bytes
   after the start of the part: all complete packages in those bytes, except that a shorter last
   package does not open when bytes of the next part follow it in the input.
   */
  function Reach(size: nat, rel: nat): nat
  {
    if rel < EncSize(size) then rel / PACKAGE * BLOCK
    else if rel == EncSize(size) then size
    else size / BLOCK * BLOCK
  }

  /** Whole packages before an encrypted offset inside a part are whole blocks of its plaintext. */
  lemma PackagesBefore(size: nat, rel: nat)
    requires rel < EncSize(size)
    ensures rel / PACKAGE * BLOCK <= size
    ensures rel / PACKAGE <= size / BLOCK
  {
    var q := size / BLOCK;
    assert EncSize(size) < q * PACKAGE + PACKAGE;
    assert rel / PACKAGE <= q;
  }

  lemma ReachInPart(size: nat, rel: nat)
    ensures Reach(size, rel) <= size
  {
    if rel < EncSize(size) {
      PackagesBefore(size, rel);
    }
  }
}
