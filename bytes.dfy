/**
 * The disk as a buffer of bytes: little-endian encoding and decoding of the
 * unsigned fields (the htole16/htole64 and le16toh/le64toh conversions of the
 * source), and writing a run of bytes at an offset.
 */
module Bytes {

  /** 256^n: the number of values an n-byte unsigned field can hold. */
  function Pow256(n: nat): (p: nat)
    ensures p >= 1
  {
    if n == 0 then 1 else 256 * Pow256(n - 1)
  }

  lemma DivBound(v: nat, p: nat)
    requires v < 256 * p
    ensures v / 256 < p && v == v % 256 + 256 * (v / 256)
  {
  }

  lemma ByteValue(x: nat)
    requires x < 256
    ensures (x as bv8) as nat == x
  {
    assert x % 256 == x;
  }

  /** The n-byte little-endian image of v (least significant byte first). */
  function EncodeLE(v: nat, n: nat): (bs: seq<bv8>)
    requires v < Pow256(n)
    ensures |bs| == n
  {
    if n == 0 then [] else [(v % 256) as bv8] + EncodeLE(v / 256, n - 1)
  }

  /** The unsigned value whose little-endian image is bs. */
  function DecodeLE(bs: seq<bv8>): (v: nat)
    ensures v < Pow256(|bs|)
  {
    if |bs| == 0 then 0 else bs[0] as nat + 256 * DecodeLE(bs[1..])
  }

  /** Decoding undoes encoding. */
  lemma {:induction false} DecodeEncode(v: nat, n: nat)
    requires v < Pow256(n)
    ensures DecodeLE(EncodeLE(v, n)) == v
  {
    if n > 0 {
      var bs := EncodeLE(v, n);
      DivBound(v, Pow256(n - 1));
      DecodeEncode(v / 256, n - 1);
      JoinValue(v);
      assert bs[1..] == EncodeLE(v / 256, n - 1);
      assert DecodeLE(bs) == bs[0] as nat + 256 * DecodeLE(bs[1..]);
    }
  }

  /** A value is its low byte plus 256 times the rest. */
  lemma JoinValue(v: nat)
    ensures ((v % 256) as bv8) as nat + 256 * (v / 256) == v
  {
    ByteValue(v % 256);
  }

  /** Encoding undoes decoding: every byte string is the image of its value. */
  lemma {:induction false} EncodeDecode(bs: seq<bv8>)
    ensures EncodeLE(DecodeLE(bs), |bs|) == bs
  {
    if |bs| > 0 {
      var rest := bs[1..];
      var w := DecodeLE(rest);
      var v := DecodeLE(bs);
      SplitValue(v, bs[0], w);
      EncodeDecode(rest);
      assert EncodeLE(v, |bs|) == [bs[0]] + rest;
    }
  }

  /** A value whose low byte is b and whose higher bytes read w. */
  lemma SplitValue(v: nat, b: bv8, w: nat)
    requires v == b as nat + 256 * w
    ensures (v % 256) as bv8 == b && v / 256 == w
  {
    assert v % 256 == b as nat;
  }

  /** The unsigned little-endian field of `width` bytes at offset `off`. */
  function ReadLE(d: seq<bv8>, off: nat, width: nat): (v: nat)
    requires off + width <= |d|
    ensures v < Pow256(width)
  {
    DecodeLE(d[off..off + width])
  }

  /** A slice of a slice is a slice of the whole. */
  lemma SliceOfSlice(d: seq<bv8>, a: nat, b: nat, c: nat, e: nat)
    requires a <= b <= |d| && c <= e <= b - a
    ensures d[a..b][c..e] == d[a + c..a + e]
  {
    assert forall k :: 0 <= k < e - c ==> d[a..b][c..e][k] == d[a + c + k];
  }

  /** d with the bytes at off .. off + |bs| replaced by bs; nothing else changes. */
  function WriteBytes(d: seq<bv8>, off: nat, bs: seq<bv8>): (r: seq<bv8>)
    requires off + |bs| <= |d|
    ensures |r| == |d|
    ensures forall k :: 0 <= k < |d| ==> r[k] == if off <= k < off + |bs| then bs[k - off] else d[k]
    ensures r[off..off + |bs|] == bs
  {
    d[..off] + bs + d[off + |bs|..]
  }

  /** Two writes of adjacent runs, in ascending order, are one write of both. */
  lemma WriteAdjacent(d: seq<bv8>, off: nat, a: seq<bv8>, b: seq<bv8>)
    requires off + |a| + |b| <= |d|
    ensures WriteBytes(WriteBytes(d, off, a), off + |a|, b) == WriteBytes(d, off, a + b)
  {
    var l := WriteBytes(WriteBytes(d, off, a), off + |a|, b);
    var r := WriteBytes(d, off, a + b);
    forall k | 0 <= k < |d|
      ensures l[k] == r[k]
    {
    }
  }

  /** Two writes of adjacent runs, the later run first, are one write of both. */
  lemma WriteAdjacentBefore(d: seq<bv8>, off: nat, a: seq<bv8>, b: seq<bv8>)
    requires off + |a| + |b| <= |d|
    ensures WriteBytes(WriteBytes(d, off + |a|, b), off, a) == WriteBytes(d, off, a + b)
  {
    var l := WriteBytes(WriteBytes(d, off + |a|, b), off, a);
    var r := WriteBytes(d, off, a + b);
    forall k | 0 <= k < |d|
      ensures l[k] == r[k]
    {
    }
  }

  /** n zero bytes. */
  function Zeros(n: nat): (z: seq<bv8>)
    ensures |z| == n && forall k :: 0 <= k < n ==> z[k] == 0
  {
    seq(n, _ => 0)
  }

  /** A store of an encoded field into the disk buffer (one C assignment to a struct field). */
  method Store(disk: array<bv8>, off: nat, bs: seq<bv8>)
    requires off + |bs| <= disk.Length
    modifies disk
    ensures disk[..] == WriteBytes(old(disk[..]), off, bs)
  {
    forall k | off <= k < off + |bs| {
      disk[k] := bs[k - off];
    }
  }

  /** A load of an unsigned little-endian field from the disk buffer (le16toh / le64toh of a field). */
  method Load(disk: array<bv8>, off: nat, width: nat) returns (v: nat)
    requires off + width <= disk.Length
    ensures v == ReadLE(disk[..], off, width)
  {
    v := 0;
    var i := width;
    while i > 0
      invariant 0 <= i <= width
      invariant v == DecodeLE(disk[off + i..off + width])
    {
      i := i - 1;
      assert disk[off + i..off + width][1..] == disk[off + i + 1..off + width];
      v := disk[off + i] as nat + 256 * v;
    }
    assert disk[off..off + width] == disk[..][off..off + width];
  }

  /** The C loop `for (i = 0; i < count; i++) p[off + i] = 0x00;`. */
  method ZeroBytes(disk: array<bv8>, off: nat, count: nat)
    requires off + count <= disk.Length
    modifies disk
    ensures disk[..] == WriteBytes(old(disk[..]), off, Zeros(count))
  {
    for i := 0 to count
      invariant forall k :: 0 <= k < disk.Length ==>
        disk[k] == if off <= k < off + i then 0 else old(disk[k])
    {
      disk[off + i] := 0x00;
    }
  }
}
