/**
 * The bitmap block allocator `block_alloc`: a first-fit scan over the
 * bit-per-granule bitmap `alloc_bmp` that follows the fixed header fields.
 * Granule i is bit i % 8 of bitmap byte i / 8; a set bit means allocated.
 *
 * The scan bound is `(size_of_part * 4096 / bmp_granularity) / 8`: the number
 * of granules divided by the bits per byte once more, so only the first
 * eighth of the granules is ever examined. When no examined bit is clear the
 * allocator returns 0, the same value as a successful allocation of granule 0,
 * and leaves the disk unchanged.
 */
module Allocator {
  import opened Bytes
  import opened Layout
  import opened Wrappers

  const BitsPerByte: nat := 8
  /** `size_of_part` counts units of this many bytes. */
  const PartitionUnit: nat := 4096

  function Granularity(d: seq<bv8>): nat
    requires HeaderSize <= |d|
  {
    ReadLE(d, GranularityAt, 2)
  }

  function PartitionUnits(d: seq<bv8>): nat
    requires HeaderSize <= |d|
  {
    ReadLE(d, SizeOfPartAt, 2)
  }

  /** How many granules the scan of block_alloc examines. */
  function ScanLimit(d: seq<bv8>): nat
    requires HeaderSize <= |d| && Granularity(d) != 0
  {
    var granules: int := PartitionUnits(d) * PartitionUnit / Granularity(d);
    assert granules >= 0 by { DivNonNegative(PartitionUnits(d) * PartitionUnit, Granularity(d)); }
    granules / BitsPerByte
  }

  /**
   * The scan covers an eighth of the granules the partition has: the
   * granule count divided once more by the bits in a byte, rounded down.
   */
  lemma ScanLimitEighth(d: seq<bv8>)
    requires HeaderSize <= |d| && Granularity(d) != 0
    ensures var granules := PartitionUnits(d) * PartitionUnit / Granularity(d);
      ScanLimit(d) * BitsPerByte <= granules < (ScanLimit(d) + 1) * BitsPerByte
  {
  }

  lemma DivNonNegative(a: nat, b: nat)
    requires b != 0
    ensures a / b >= 0
  {
  }

  /**
   * What block_alloc needs of its disk: a readable header, a nonzero
   * granularity (it divides by it) and every bitmap byte the scan may
   * examine inside the buffer.
   */
  predicate Allocatable(d: seq<bv8>) {
    && HeaderSize <= |d|
    && Granularity(d) != 0
    && BitmapAt + (ScanLimit(d) + BitsPerByte - 1) / BitsPerByte <= |d|
  }

  /** The mask `1 << (i % 8)` of granule i inside its bitmap byte. */
  function Mask(i: nat): bv8 {
    (1 as bv8) << (i % BitsPerByte)
  }

  /** The mask of granule i is the single bit of weight 2^(i % 8). */
  lemma MaskValue(i: nat)
    ensures Mask(i) as nat == [1, 2, 4, 8, 16, 32, 64, 128][i % BitsPerByte]
  {
  }

  function BitmapByte(i: nat): nat {
    BitmapAt + i / BitsPerByte
  }

  /** Granule i is marked allocated. */
  predicate BitSet(d: seq<bv8>, i: nat)
    requires BitmapByte(i) < |d|
  {
    d[BitmapByte(i)] & Mask(i) != 0
  }

  /**
   * The first granule at or after `from` and below the scan limit whose bit
   * is clear, if there is one.
   */
  function FirstClear(d: seq<bv8>, from: nat): (r: Option<nat>)
    requires Allocatable(d) && from <= ScanLimit(d)
    ensures r.None? ==> forall j :: from <= j < ScanLimit(d) ==> BitSet(d, j)
    ensures r.Some? ==> from <= r.value < ScanLimit(d) && !BitSet(d, r.value)
    ensures r.Some? ==> forall j :: from <= j < r.value ==> BitSet(d, j)
    decreases ScanLimit(d) - from
  {
    if from == ScanLimit(d) then None
    else if !BitSet(d, from) then Some(from)
    else FirstClear(d, from + 1)
  }

  /** Two images with the same fixed header fields agree on the scan. */
  lemma SameHeader(d: seq<bv8>, r: seq<bv8>)
    requires HeaderSize <= |d| == |r| && r[..HeaderSize] == d[..HeaderSize]
    ensures Granularity(r) == Granularity(d) && PartitionUnits(r) == PartitionUnits(d)
    ensures Allocatable(d) ==> Allocatable(r) && ScanLimit(r) == ScanLimit(d)
  {
    assert r[GranularityAt..GranularityAt + 2] == d[GranularityAt..GranularityAt + 2];
    assert r[SizeOfPartAt..SizeOfPartAt + 2] == d[SizeOfPartAt..SizeOfPartAt + 2];
  }

  /** d with granule i marked allocated (`alloc_bmp[i/8] |= 1 << (i%8)`). */
  function SetBit(d: seq<bv8>, i: nat): (r: seq<bv8>)
    requires Allocatable(d) && i < ScanLimit(d)
    ensures |r| == |d| && r[..HeaderSize] == d[..HeaderSize]
    ensures Allocatable(r) && ScanLimit(r) == ScanLimit(d)
  {
    var r := d[BitmapByte(i) := d[BitmapByte(i)] | Mask(i)];
    assert r[..HeaderSize] == d[..HeaderSize];
    SameHeader(d, r);
    r
  }

  /**
   * Granule i is allocated exactly when bit i % 8 of bitmap byte i / 8,
   * counted from the least significant, is 1.
   */
  lemma BitSetIsBit(d: seq<bv8>, i: nat)
    requires BitmapByte(i) < |d|
    ensures BitSet(d, i) <==> (d[BitmapByte(i)] >> (i % BitsPerByte)) & 1 == 1
  {
    ShiftedBit(d[BitmapByte(i)], i % BitsPerByte);
  }

  lemma ShiftedBit(b: bv8, k: nat)
    requires k < 8
    ensures (b & ((1 as bv8) << k) != 0) <==> (b >> k) & 1 == 1
  {
  }

  lemma MaskOther(b: bv8, i: nat, j: nat)
    requires i % BitsPerByte != j % BitsPerByte
    ensures ((b | Mask(i)) & Mask(j) != 0) == (b & Mask(j) != 0)
  {
  }

  lemma MaskSame(b: bv8, i: nat)
    ensures (b | Mask(i)) & Mask(i) != 0
  {
  }

  /**
   * Setting granule i's bit flips that one bit: granule i is allocated
   * afterwards, every other granule keeps its state, and no byte other
   * than bitmap byte i / 8 changes (so every header field is unchanged).
   */
  lemma SetBitEffect(d: seq<bv8>, i: nat)
    requires Allocatable(d) && i < ScanLimit(d)
    ensures var r := SetBit(d, i);
      && (forall k :: 0 <= k < |d| && k != BitmapByte(i) ==> r[k] == d[k])
      && BitSet(r, i)
      && (forall j :: BitmapByte(j) < |d| && j != i ==> BitSet(r, j) == BitSet(d, j))
  {
    var r := SetBit(d, i);
    MaskSame(d[BitmapByte(i)], i);
    forall j: nat | BitmapByte(j) < |d| && j != i
      ensures BitSet(r, j) == BitSet(d, j)
    {
      if BitmapByte(j) == BitmapByte(i) {
        assert j % BitsPerByte != i % BitsPerByte;
        MaskOther(d[BitmapByte(i)], i, j);
      }
    }
  }

  /**
   * One call of block_alloc on the disk image d: the granule index it
   * returns and the image afterwards.
   */
  function Alloc(d: seq<bv8>): (r: (nat, seq<bv8>))
    requires Allocatable(d)
    ensures Allocatable(r.1) && |r.1| == |d| && ScanLimit(r.1) == ScanLimit(d)
  {
    match FirstClear(d, 0)
    case Some(i) => (i, SetBit(d, i))
    case None => (0, d)
  }

  /**
   * block_alloc is first fit: when some examined granule is free it returns
   * the lowest free one and allocates exactly that granule, leaving every
   * other bit and every header field as it was; when none is free it returns
   * 0 and changes nothing.
   */
  lemma AllocFirstFit(d: seq<bv8>)
    requires Allocatable(d)
    ensures var (i, r) := Alloc(d);
      && ((forall j :: 0 <= j < ScanLimit(d) ==> BitSet(d, j)) ==> i == 0 && r == d)
      && (!(forall j :: 0 <= j < ScanLimit(d) ==> BitSet(d, j)) ==>
            && i < ScanLimit(d)
            && !BitSet(d, i) && (forall j :: 0 <= j < i ==> BitSet(d, j))
            && BitSet(r, i)
            && r[BitmapByte(i)] == d[BitmapByte(i)] | Mask(i)
            && (forall j :: 0 <= j < ScanLimit(d) && j != i ==> BitSet(r, j) == BitSet(d, j))
            && (forall k :: 0 <= k < |d| && k != BitmapByte(i) ==> r[k] == d[k]))
  {
    match FirstClear(d, 0)
    case Some(i) => SetBitEffect(d, i);
    case None =>
  }

  /**
   * The answer 0 is ambiguous: block_alloc returns 0 exactly when granule 0
   * is examined and free (and is then allocated) or when no examined granule
   * is free (and nothing is allocated).
   */
  lemma AllocReturnsZero(d: seq<bv8>)
    requires Allocatable(d)
    ensures Alloc(d).0 == 0 <==>
      (ScanLimit(d) > 0 && !BitSet(d, 0)) || (forall j :: 0 <= j < ScanLimit(d) ==> BitSet(d, j))
  {
    match FirstClear(d, 0)
    case Some(i) =>
      if i != 0 {
        assert BitSet(d, 0);
      }
    case None =>
  }

  /** Number of free granules among those the scan examines, from `from` on. */
  function FreeFrom(d: seq<bv8>, from: nat): (n: nat)
    requires Allocatable(d) && from <= ScanLimit(d)
    ensures n <= ScanLimit(d) - from
    decreases ScanLimit(d) - from
  {
    if from == ScanLimit(d) then 0
    else (if BitSet(d, from) then 0 else 1) + FreeFrom(d, from + 1)
  }

  function FreeGranules(d: seq<bv8>): nat
    requires Allocatable(d)
  {
    FreeFrom(d, 0)
  }

  /** A free granule at or after `from` is counted. */
  lemma {:induction false} FreeFromPositive(d: seq<bv8>, from: nat)
    requires Allocatable(d) && from <= ScanLimit(d)
    requires FirstClear(d, from).Some?
    ensures FreeFrom(d, from) > 0
    decreases ScanLimit(d) - from
  {
    if BitSet(d, from) {
      FreeFromPositive(d, from + 1);
    }
  }

  /** Setting the bit of free granule i removes exactly that granule from the count. */
  lemma {:induction false} FreeFromAfterSet(d: seq<bv8>, i: nat, from: nat)
    requires Allocatable(d) && i < ScanLimit(d) && !BitSet(d, i) && from <= ScanLimit(d)
    ensures FreeFrom(SetBit(d, i), from) ==
      FreeFrom(d, from) - (if from <= i then 1 else 0)
    decreases ScanLimit(d) - from
  {
    SetBitEffect(d, i);
    if from < ScanLimit(d) {
      FreeFromAfterSet(d, i, from + 1);
    }
  }

  /** The indices returned by n successive calls of block_alloc, and the image after them. */
  function AllocRun(d: seq<bv8>, n: nat): (r: (seq<nat>, seq<bv8>))
    requires Allocatable(d)
    ensures |r.0| == n && Allocatable(r.1) && |r.1| == |d| && ScanLimit(r.1) == ScanLimit(d)
    decreases n
  {
    if n == 0 then ([], d)
    else
      var (i, d1) := Alloc(d);
      var (rest, dn) := AllocRun(d1, n - 1);
      ([i] + rest, dn)
  }

  /**
   * With at least n free granules in the examined range, n successive calls
   * of block_alloc return strictly increasing (so pairwise distinct) indices
   * of granules that were free, every one of them is allocated afterwards,
   * no other granule changes state, and n fewer granules are free.
   */
  lemma {:induction false} AllocRunDistinct(d: seq<bv8>, n: nat)
    requires Allocatable(d) && n <= FreeGranules(d)
    ensures var (idx, r) := AllocRun(d, n);
      && (forall a, b :: 0 <= a < b < n ==> idx[a] < idx[b])
      && (forall a :: 0 <= a < n ==> idx[a] < ScanLimit(d) && !BitSet(d, idx[a]) && BitSet(r, idx[a]))
      && (forall j :: 0 <= j < ScanLimit(d) && j !in idx ==> BitSet(r, j) == BitSet(d, j))
      && FreeGranules(r) == FreeGranules(d) - n
    decreases n
  {
    if n > 0 {
      var fc := FirstClear(d, 0);
      if fc.None? {
        assert FreeFrom(d, 0) == 0 by { NoneMeansFull(d, 0); }
        assert false;
      }
      var i := fc.value;
      var d1 := SetBit(d, i);
      assert Alloc(d) == (i, d1);
      FreeFromAfterSet(d, i, 0);
      AllocRunDistinct(d1, n - 1);
      var (rest, r) := AllocRun(d1, n - 1);
      assert AllocRun(d, n) == ([i] + rest, r);
      RunAfterFirst(d, i, rest, r);
    }
  }

  /**
   * The inductive step of AllocRunDistinct: a run on the image after the
   * first allocation, prefixed with that first index, is a run on d.
   */
  lemma RunAfterFirst(d: seq<bv8>, i: nat, rest: seq<nat>, r: seq<bv8>)
    requires Allocatable(d) && FirstClear(d, 0) == Some(i) && |r| == |d|
    requires var d1 := SetBit(d, i);
      && (forall a, b :: 0 <= a < b < |rest| ==> rest[a] < rest[b])
      && (forall a :: 0 <= a < |rest| ==> rest[a] < ScanLimit(d) && !BitSet(d1, rest[a]) && BitSet(r, rest[a]))
      && (forall j :: 0 <= j < ScanLimit(d) && j !in rest ==> BitSet(r, j) == BitSet(d1, j))
    ensures var idx := [i] + rest;
      && (forall a, b :: 0 <= a < b < |idx| ==> idx[a] < idx[b])
      && (forall a :: 0 <= a < |idx| ==> idx[a] < ScanLimit(d) && !BitSet(d, idx[a]) && BitSet(r, idx[a]))
      && (forall j :: 0 <= j < ScanLimit(d) && j !in idx ==> BitSet(r, j) == BitSet(d, j))
  {
    var d1 := SetBit(d, i);
    SetBitEffect(d, i);
    var idx := [i] + rest;
    assert forall j :: 0 <= j <= i ==> BitSet(d1, j);
    forall a | 0 <= a < |rest|
      ensures i < rest[a]
    {
      assert !BitSet(d1, rest[a]);
    }
    forall a | 0 <= a < |idx|
      ensures idx[a] < ScanLimit(d) && !BitSet(d, idx[a]) && BitSet(r, idx[a])
    {
      if a > 0 {
        assert idx[a] == rest[a - 1];
      }
    }
    forall j | 0 <= j < ScanLimit(d) && j !in idx
      ensures BitSet(r, j) == BitSet(d, j)
    {
      assert j !in rest && j != i;
    }
  }

  /** Every examined granule allocated means no free granule is counted. */
  lemma {:induction false} NoneMeansFull(d: seq<bv8>, from: nat)
    requires Allocatable(d) && from <= ScanLimit(d)
    requires FirstClear(d, from).None?
    ensures FreeFrom(d, from) == 0
    decreases ScanLimit(d) - from
  {
    if from < ScanLimit(d) {
      NoneMeansFull(d, from + 1);
    }
  }

  /** block_alloc on the disk buffer, in place. */
  method BlockAlloc(disk: array<bv8>) returns (index: nat)
    requires Allocatable(disk[..])
    modifies disk
    ensures (index, disk[..]) == Alloc(old(disk[..]))
  {
    ghost var d := disk[..];
    var units := Load(disk, SizeOfPartAt, 2);
    var rpz := units * PartitionUnit;
    var gran := Load(disk, GranularityAt, 2);
    var limit := (rpz / gran) / BitsPerByte;
    assert limit == ScanLimit(d);
    var i := 0;
    while i < limit
      invariant i <= limit
      invariant disk[..] == d
      invariant forall j :: 0 <= j < i ==> BitSet(d, j)
    {
      var bp := Mask(i);
      if disk[BitmapByte(i)] & bp == 0 {
        assert !BitSet(d, i);
        assert FirstClear(d, 0) == Some(i);
        disk[BitmapByte(i)] := disk[BitmapByte(i)] | bp;
        return i;
      }
      i := i + 1;
    }
    assert FirstClear(d, 0) == None;
    return 0;
  }
}
