/** The allocation bitmap on disk: setting and clearing bits, and the scan for a free region. */
module Bitmap {
  import opened Bytes
  import opened Bits
  import opened Regions
  import opened Disk

  method BitmapSet(v: Volume, k: nat)
    requires v.Mounted() && k < 4096 * v.bm
    modifies v`lba
    ensures v.Mounted()
    ensures v.Img() == old(v.Img().(store := v.Img().store.(bits := v.Img().store.bits[k := true])))
  {
    var buf := new byte[512];
    var sectorNum, byteInSector := 1 + k / 8 / 512, k / 8 % 512;
    var r := v.AtaRead(sectorNum, buf);
    buf[byteInSector] := SetBit(buf[byteInSector], k % 8);
    BitWritten(v.lba, v.bm, k, buf[..], true);
    r := v.AtaWrite(sectorNum, buf);
  }

  method BitmapClear(v: Volume, k: nat)
    requires v.Mounted() && k < 4096 * v.bm
    modifies v`lba
    ensures v.Mounted()
    ensures v.Img() == old(v.Img().(store := v.Img().store.(bits := v.Img().store.bits[k := false])))
  {
    var buf := new byte[512];
    var sectorNum, byteInSector := 1 + k / 8 / 512, k / 8 % 512;
    var r := v.AtaRead(sectorNum, buf);
    buf[byteInSector] := ClearBit(buf[byteInSector], k % 8);
    BitWritten(v.lba, v.bm, k, buf[..], false);
    r := v.AtaWrite(sectorNum, buf);
  }

  /** The loops that take a whole region. */
  method MarkRegion(v: Volume, r: nat, n: nat)
    requires v.Mounted() && r + n <= 4096 * v.bm
    modifies v`lba
    ensures v.Mounted()
    ensures v.Img() == old(v.Img().(store := v.Img().store.(bits := Mark(v.Img().store.bits, r, n, true))))
  {
    ghost var m := v.Img();
    assert Mark(m.store.bits, r, 0, true) == m.store.bits;
    for k := 0 to n
      invariant v.Mounted() && v.bm == old(v.bm)
      invariant v.Img() == m.(store := m.store.(bits := Mark(m.store.bits, r, k, true)))
    {
      BitmapSet(v, r + k);
      assert Mark(m.store.bits, r, k, true)[r + k := true] == Mark(m.store.bits, r, k + 1, true);
    }
  }

  method ClearRegion(v: Volume, r: nat, n: nat)
    requires v.Mounted() && r + n <= 4096 * v.bm
    modifies v`lba
    ensures v.Mounted()
    ensures v.Img() == old(v.Img().(store := v.Img().store.(bits := Mark(v.Img().store.bits, r, n, false))))
  {
    ghost var m := v.Img();
    assert Mark(m.store.bits, r, 0, false) == m.store.bits;
    for k := 0 to n
      invariant v.Mounted() && v.bm == old(v.bm)
      invariant v.Img() == m.(store := m.store.(bits := Mark(m.store.bits, r, k, false)))
    {
      BitmapClear(v, r + k);
      assert Mark(m.store.bits, r, k, false)[r + k := false] == Mark(m.store.bits, r, k + 1, false);
    }
  }

  lemma {:induction false} GridAdd(a: nat, b: nat, n: nat)
    requires n > 0 && OnGrid(a, n) && OnGrid(b, n)
    ensures OnGrid(a + b, n)
  {
    if a > 0 {
      GridAdd(a - n, b, n);
      assert a + b - n == (a - n) + b;
    }
  }

  /** The bits of a bitmap are whole regions when regions tile one bitmap sector. */
  lemma {:induction false} GridTimes(q: nat, n: nat)
    requires n > 0 && OnGrid(4096, n)
    ensures OnGrid(4096 * q, n)
  {
    if q > 0 {
      GridTimes(q - 1, n);
      GridAdd(4096 * (q - 1), 4096, n);
    }
  }

  /** On a bitmap that changes by whole regions, the lowest window not ruled out yet is either taken
      in its first bit, or free and inside its own bitmap sector. */
  lemma WindowAt(bits: seq<bool>, n: nat, k: nat)
    requires n > 0 && OnGrid(4096, n) && |bits| % 4096 == 0 && Uniform(bits, n) && k < |bits|
    requires forall q: nat :: q < k && q + n <= |bits| ==> !Free(bits, q, n)
    ensures bits[k] || (k + n <= |bits| && k % 4096 + n <= 4096 && Free(bits, k, n))
  {
    if !bits[k] {
      var g := GroupStart(k, n);
      var s := k / 4096;
      GridTimes(s + 1, n);
      GroupInGrid(4096 * (s + 1), n, k);
      assert 4096 * (s + 1) <= |bits|;
      assert !bits[g];
      forall i | g <= i < g + n
        ensures !bits[i]
      {
        GroupOf(i, n, g);
      }
      assert Free(bits, g, n);
      assert g == k;
    }
  }

  /** Reading `this_buffer[i]`; past its 512 bytes lies whatever else is on the stack. */
  method PeekByte(buf: array<byte>, i: nat) returns (b: byte)
    requires buf.Length == 512
    ensures i < 512 ==> b == buf[i]
  {
    b := *;
    if i < 512 { b := buf[i]; }
  }

  /** The bits `from..to` of a bitmap sector are all clear. */
  ghost predicate NoBits(s: Sector, from: nat, to: nat)
    requires to <= 4096
  {
    forall p :: from <= p < to ==> !BitOf(s[p / 8], p % 8)
  }

  lemma NoBitsStep(s: Sector, from: nat, to: nat)
    requires from <= to < 4096
    ensures NoBits(s, from, to + 1) <==> NoBits(s, from, to) && !BitOf(s[to / 8], to % 8)
  {
  }

  /** How many of the `size` bits from bit `i4` of byte `i3` on are set. */
  method CountBits(buf: array<byte>, i3: nat, i4: nat, size: nat) returns (thisBit: nat)
    requires buf.Length == 512 && i3 < 512 && i4 < 8 && size > 0
    ensures BitOf(buf[i3], i4) ==> thisBit > 0
    ensures i3 * 8 + i4 + size <= 4096 ==>
      (thisBit == 0 <==> NoBits(buf[..], i3 * 8 + i4, i3 * 8 + i4 + size))
  {
    thisBit := 0;
    ghost var from := i3 * 8 + i4;
    assert from / 8 == i3 && from % 8 == i4;
    for i5 := 0 to size
      invariant i5 > 0 && BitOf(buf[i3], i4) ==> thisBit > 0
      invariant from + size <= 4096 ==> (thisBit == 0 <==> NoBits(buf[..], from, from + i5))
    {
      var thisShift := i4 + i5;
      var byteToCheck := buf[i3];
      if thisShift > 7 {
        var thisByteShift := thisShift / 8;
        thisShift := thisShift - thisByteShift * 8;
        byteToCheck := PeekByte(buf, i3 + thisByteShift);
      }
      assert (from + i5) / 8 == i3 + (i4 + i5) / 8 && (from + i5) % 8 == thisShift;
      if from + size <= 4096 { NoBitsStep(buf[..], from, from + i5); }
      if BitOf(byteToCheck, thisShift) {
        thisBit := thisBit + 1;
      }
    }
  }

  /** What a window's count says once every lower window has been ruled out. */
  lemma ScanStep(lba: seq<Sector>, bm: nat, i: nat, p: nat, size: nat, count: nat)
    requires bm < |lba| && i < bm && p < 4096
    requires size > 0 && OnGrid(4096, size) && Uniform(BitsOf(lba, bm), size)
    requires BitOf(lba[1 + i][p / 8], p % 8) ==> count > 0
    requires p + size <= 4096 ==> (count == 0 <==> NoBits(lba[1 + i], p, p + size))
    requires forall q: nat :: q < i * 4096 + p && q + size <= 4096 * bm ==> !Free(BitsOf(lba, bm), q, size)
    ensures var k := i * 4096 + p;
      if count == 0 then FirstFit(BitsOf(lba, bm), size) == Some(k)
      else k + size <= 4096 * bm ==> !Free(BitsOf(lba, bm), k, size)
  {
    var bits, k := BitsOf(lba, bm), i * 4096 + p;
    WindowAt(bits, size, k);
    SectorBit(lba, bm, i, p);
    if p + size <= 4096 {
      SectorWindow(lba, bm, i, p, size);
    }
    assert count == 0 ==> k + size <= 4096 * bm && Free(bits, k, size);
    assert count > 0 && k + size <= 4096 * bm ==> !Free(bits, k, size);
    if count == 0 {
      FirstFitIs(bits, size, k);
    }
  }

  lemma FirstFitIs(bits: seq<bool>, n: nat, k: nat)
    requires k + n <= |bits| && Free(bits, k, n)
    requires forall q: nat :: q < k && q + n <= |bits| ==> !Free(bits, q, n)
    ensures FirstFit(bits, n) == Some(k)
  {
  }

  lemma SectorWindow(lba: seq<Sector>, bm: nat, i: nat, p: nat, size: nat)
    requires bm < |lba| && i < bm && p + size <= 4096
    ensures i * 4096 + p + size <= 4096 * bm
    ensures Free(BitsOf(lba, bm), i * 4096 + p, size) <==> NoBits(lba[1 + i], p, p + size)
  {
    var bits := BitsOf(lba, bm);
    forall q | p <= q < p + size
      ensures bits[i * 4096 + q] == BitOf(lba[1 + i][q / 8], q % 8)
    {
      SectorBit(lba, bm, i, q);
    }
    if NoBits(lba[1 + i], p, p + size) {
      forall j | i * 4096 + p <= j < i * 4096 + p + size
        ensures !bits[j]
      {
        assert bits[i * 4096 + (j - i * 4096)] == BitOf(lba[1 + i][(j - i * 4096) / 8], (j - i * 4096) % 8);
      }
    }
  }

  /** The bit-by-bit scan returns the first free region, whatever lies behind its sector buffer. */
  method GetDataRegion(v: Volume, size: nat) returns (r: u64)
    requires v.Mounted() && size > 0 && OnGrid(4096, size) && Uniform(v.Img().store.bits, size)
    ensures match FirstFit(v.Img().store.bits, size)
            case None => r == NOT_FOUND
            case Some(f) => r == f
  {
    ghost var bits := BitsOf(v.lba, v.bm);
    var buf := new byte[512];
    var i := 0;
    while i < v.bm
      invariant i <= v.bm
      invariant forall q: nat :: q < i * 4096 && q + size <= |bits| ==> !Free(bits, q, size)
    {
      var stat := v.AtaRead(1 + i, buf);
      if stat == 0 {
        for i3 := 0 to 512
          invariant buf[..] == v.lba[1 + i]
          invariant forall q: nat :: q < (i * 512 + i3) * 8 && q + size <= |bits| ==> !Free(bits, q, size)
        {
          for i4 := 0 to 8
            invariant buf[..] == v.lba[1 + i]
            invariant forall q: nat :: q < (i * 512 + i3) * 8 + i4 && q + size <= |bits| ==> !Free(bits, q, size)
          {
            var thisBit := CountBits(buf, i3, i4, size);
            assert (i3 * 8 + i4) / 8 == i3 && (i3 * 8 + i4) % 8 == i4;
            ScanStep(v.lba, v.bm, i, i3 * 8 + i4, size, thisBit);
            if thisBit == 0 {
              return (i * 512 + i3) * 8 + i4;
            }
          }
        }
      }
      i := i + 1;
    }
    return NOT_FOUND;
  }

  lemma SectorBit(lba: seq<Sector>, bm: nat, i: nat, p: nat)
    requires bm < |lba| && i < bm && p < 4096
    ensures BitsOf(lba, bm)[i * 4096 + p] == BitOf(lba[1 + i][p / 8], p % 8)
  {
    var k := i * 4096 + p;
    assert k / 8 == i * 512 + p / 8 && k % 8 == p % 8;
  }
}
