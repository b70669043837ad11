/** While only 8-sector regions are taken and freed, the bitmap is a map of whole bytes. */
module WholeBytes {
  import opened Bytes
  import opened Bits
  import opened Regions
  import opened Disk
  import opened FileSystem
  import Calls

  /** Byte `j` of the bitmap, counted over all its sectors. */
  function ByteAt(lba: seq<Sector>, bm: nat, j: nat): byte
    requires bm < |lba| && j < 512 * bm
  {
    lba[1 + j / 512][j % 512]
  }

  lemma {:induction false} AllOrNothing(b: nat, w: nat, v: bool)
    requires b < Pow2(w) && forall i :: 0 <= i < w ==> BitOf(b, i) == v
    ensures b == if v then Pow2(w) - 1 else 0
  {
    if w > 0 {
      forall i | 0 <= i < w - 1
        ensures BitOf(b / 2, i) == v
      {
        assert BitOf(b, i + 1) == BitOf(b / 2, i);
      }
      AllOrNothing(b / 2, w - 1, v);
      assert BitOf(b, 0) == v;
    }
  }

  lemma ByteBits(lba: seq<Sector>, bm: nat, j: nat, i: nat)
    requires bm < |lba| && j < 512 * bm && i < 8
    ensures BitsOf(lba, bm)[8 * j + i] == BitOf(ByteAt(lba, bm, j), i)
  {
    assert (8 * j + i) / 8 == j && (8 * j + i) % 8 == i;
  }

  /** Every bitmap byte is 0x00 or 0xFF, and says whether its whole region is free. */
  lemma BytesAreWhole(lba: seq<Sector>, bm: nat, j: nat)
    requires bm < |lba| && Uniform(BitsOf(lba, bm), REGION) && j < 512 * bm
    ensures ByteAt(lba, bm, j) == 0x00 || ByteAt(lba, bm, j) == 0xFF
    ensures Free(BitsOf(lba, bm), 8 * j, REGION) <==> ByteAt(lba, bm, j) == 0x00
  {
    var bits, b := BitsOf(lba, bm), ByteAt(lba, bm, j);
    GroupBits(bits, j);
    forall i | 0 <= i < 8
      ensures BitOf(b, i) == bits[8 * j]
    {
      ByteBits(lba, bm, j, i);
      assert bits[8 * j + i] == bits[8 * j];
    }
    hide BitsOf, ByteAt, Uniform, GroupStart;
    Pow2Eight();
    AllOrNothing(b, 8, bits[8 * j]);
  }

  /** The eight bits of a region agree. */
  lemma GroupBits(bits: seq<bool>, j: nat)
    requires Uniform(bits, REGION) && 8 * j + 8 <= |bits|
    ensures forall k :: 8 * j <= k < 8 * j + 8 ==> bits[k] == bits[8 * j]
    ensures Free(bits, 8 * j, REGION) <==> !bits[8 * j]
  {
    Calls.EightsOnGrid(j);
    forall k | 8 * j <= k < 8 * j + 8
      ensures bits[k] == bits[8 * j]
    {
      GroupOf(k, REGION, 8 * j);
    }
  }

  /** The first byte of the bitmap, from byte `j` on, that is zero. */
  function FirstZero(lba: seq<Sector>, bm: nat, j: nat := 0): (z: Option<nat>)
    requires bm < |lba|
    ensures z.Some? ==> j <= z.value < 512 * bm && ByteAt(lba, bm, z.value) == 0
    ensures forall k :: j <= k < (if z.Some? then z.value else 512 * bm) ==> ByteAt(lba, bm, k) != 0
    decreases 512 * bm - j
  {
    if j >= 512 * bm then None else if ByteAt(lba, bm, j) == 0 then Some(j) else FirstZero(lba, bm, j + 1)
  }

  lemma {:induction false} GridIsEights(r: nat)
    requires OnGrid(r, REGION)
    ensures r == 8 * (r / 8)
  {
    if r > 0 { GridIsEights(r - 8); }
  }

  /** So the bit-by-bit scan for a free region finds 8 times the index of the first zero byte. */
  lemma ScanFindsZeroByte(lba: seq<Sector>, bm: nat)
    requires bm < |lba| && Uniform(BitsOf(lba, bm), REGION)
    ensures FirstFit(BitsOf(lba, bm), REGION) ==
      match FirstZero(lba, bm) case None => None case Some(j) => Some(8 * j)
  {
    var bits, f, z := BitsOf(lba, bm), FirstFit(BitsOf(lba, bm), REGION), FirstZero(lba, bm);
    Calls.EightsOnGrid(512 * bm);
    if z.Some? {
      BytesAreWhole(lba, bm, z.value);
    }
    if f.Some? {
      FirstFitOnGrid(bits, REGION);
      GridIsEights(f.value);
      BytesAreWhole(lba, bm, f.value / 8);
    }
  }

  /** Between any two calls on a mounted volume its bitmap bytes are all 0x00 or 0xFF. */
  lemma ReadyBytes(v: Volume, j: nat)
    requires Calls.Ready(v) && j < 512 * v.bm
    ensures ByteAt(v.lba, v.bm, j) == 0x00 || ByteAt(v.lba, v.bm, j) == 0xFF
    ensures FirstFit(v.Img().store.bits, REGION) ==
      match FirstZero(v.lba, v.bm) case None => None case Some(z) => Some(8 * z)
  {
    BytesAreWhole(v.lba, v.bm, j);
    ScanFindsZeroByte(v.lba, v.bm);
  }
}
