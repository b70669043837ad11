/**
 * The disk as the file system sees it: an array of 512-byte sectors and the layout globals.
 * Sector 0 is the superblock, sectors 1..bm the allocation bitmap, sector bm+1 the last id,
 * sectors bm+2..bm+129 the entry table, and everything from bm+130 on is storage.
 */
module Disk {
  import opened Bytes
  import Bits
  import opened Regions
  import opened Entries

  const TABLE_SECTORS := 128
  const TABLE_ENTRIES := 1024
  const MAX_SECTORS := 0x1000_0000   // the driver sends 28-bit sector numbers

  /** What the sectors mean. */
  datatype Image = Image(superblock: Sector, store: Store, table: seq<Entry>, lastId: u64)

  // ---------------------------------------------------------------- views of raw sectors

  ghost predicate Fits(lba: seq<Sector>, bm: nat) {
    bm + 130 + 4096 * bm <= |lba| <= MAX_SECTORS
  }

  /** Bit `k` of the bitmap: byte k/8 % 512 of sector 1 + k/8/512. */
  predicate BitAt(lba: seq<Sector>, bm: nat, k: nat)
    requires bm < |lba| && k < 4096 * bm
  {
    Bits.BitOf(lba[1 + k / 8 / 512][k / 8 % 512], k % 8)
  }

  ghost function BitsOf(lba: seq<Sector>, bm: nat): (b: seq<bool>)
    requires bm < |lba|
    ensures |b| == 4096 * bm && forall k :: 0 <= k < |b| ==> b[k] == BitAt(lba, bm, k)
  {
    seq(4096 * bm, k requires 0 <= k < 4096 * bm => BitAt(lba, bm, k))
  }

  function SlotOf(s: Sector, slot: nat): Slot
    requires slot < 8
  {
    s[64 * slot..64 * slot + 64]
  }

  function EntryAt(lba: seq<Sector>, bm: nat, k: nat): Entry
    requires bm + 130 <= |lba| && k < TABLE_ENTRIES
  {
    Decode(SlotOf(lba[bm + 2 + k / 8], k % 8))
  }

  ghost function TableOf(lba: seq<Sector>, bm: nat): (t: seq<Entry>)
    requires bm + 130 <= |lba|
    ensures |t| == TABLE_ENTRIES && forall k :: 0 <= k < TABLE_ENTRIES ==> t[k] == EntryAt(lba, bm, k)
  {
    seq(TABLE_ENTRIES, k requires 0 <= k < TABLE_ENTRIES => EntryAt(lba, bm, k))
  }

  function IdWord(s: Sector): u64 {
    LeBytesOfValue(s[..8]);
    Pow256Eight();
    LeValue(s[..8])
  }

  ghost function ImageOf(lba: seq<Sector>, bm: nat): (m: Image)
    requires Fits(lba, bm)
  {
    Image(lba[0], Store(lba[bm + 130..], BitsOf(lba, bm)), TableOf(lba, bm), IdWord(lba[bm + 1]))
  }

  // ---------------------------------------------------------------- writing one sector

  lemma StorageWritten(lba: seq<Sector>, bm: nat, i: nat, s: Sector)
    requires Fits(lba, bm) && bm + 130 <= i < |lba|
    ensures var m := ImageOf(lba, bm);
      ImageOf(lba[i := s], bm) == m.(store := m.store.(sectors := m.store.sectors[i - (bm + 130) := s]))
  {
    var lba' := lba[i := s];
    assert lba'[bm + 130..] == lba[bm + 130..][i - (bm + 130) := s];
    assert BitsOf(lba', bm) == BitsOf(lba, bm);
    assert TableOf(lba', bm) == TableOf(lba, bm);
  }

  lemma BitWritten(lba: seq<Sector>, bm: nat, k: nat, s: Sector, v: bool)
    requires Fits(lba, bm) && k < 4096 * bm
    requires forall j :: 0 <= j < 512 && j != k / 8 % 512 ==> s[j] == lba[1 + k / 8 / 512][j]
    requires forall j :: 0 <= j < 8 ==>
      Bits.BitOf(s[k / 8 % 512], j) == if j == k % 8 then v else Bits.BitOf(lba[1 + k / 8 / 512][k / 8 % 512], j)
    ensures var m := ImageOf(lba, bm);
      ImageOf(lba[1 + k / 8 / 512 := s], bm) == m.(store := m.store.(bits := m.store.bits[k := v]))
  {
    var i := 1 + k / 8 / 512;
    var lba' := lba[i := s];
    assert lba'[bm + 130..] == lba[bm + 130..];
    assert TableOf(lba', bm) == TableOf(lba, bm);
    forall j | 0 <= j < 4096 * bm
      ensures BitAt(lba', bm, j) == if j == k then v else BitAt(lba, bm, j)
    {
      if 1 + j / 8 / 512 == i && j / 8 % 512 == k / 8 % 512 {
        assert j / 8 == k / 8;
        assert j % 8 == k % 8 ==> j == k;
      }
    }
    assert BitsOf(lba', bm) == BitsOf(lba, bm)[k := v];
  }

  lemma EntryWritten(lba: seq<Sector>, bm: nat, k: nat, s: Sector, e: Entry)
    requires Fits(lba, bm) && k < TABLE_ENTRIES
    requires SlotOf(s, k % 8) == Encode(e)
    requires forall j :: 0 <= j < 8 && j != k % 8 ==> SlotOf(s, j) == SlotOf(lba[bm + 2 + k / 8], j)
    ensures var m := ImageOf(lba, bm);
      ImageOf(lba[bm + 2 + k / 8 := s], bm) == m.(table := m.table[k := e])
  {
    var lba' := lba[bm + 2 + k / 8 := s];
    DecodeEncode(e);
    assert lba'[bm + 130..] == lba[bm + 130..];
    assert BitsOf(lba', bm) == BitsOf(lba, bm);
    forall j | 0 <= j < TABLE_ENTRIES
      ensures EntryAt(lba', bm, j) == if j == k then e else EntryAt(lba, bm, j)
    {
      if j / 8 == k / 8 && j % 8 == k % 8 { assert j == k; }
    }
    assert TableOf(lba', bm) == TableOf(lba, bm)[k := e];
  }

  lemma LastIdWritten(lba: seq<Sector>, bm: nat, s: Sector)
    requires Fits(lba, bm)
    ensures ImageOf(lba[bm + 1 := s], bm) == ImageOf(lba, bm).(lastId := IdWord(s))
  {
    var lba' := lba[bm + 1 := s];
    assert lba'[bm + 130..] == lba[bm + 130..];
    assert BitsOf(lba', bm) == BitsOf(lba, bm);
    assert TableOf(lba', bm) == TableOf(lba, bm);
  }

  // ---------------------------------------------------------------- the mounted volume

  class Volume {
    var lba: seq<Sector>
    var sectors: u64
    var bm: u64               // fs_data_bitmap_size_sectors
    var startTable: u64
    var startStorage: u64

    /** Mounted with every storage sector that the bitmap can name on the disk. */
    ghost predicate Mounted()
      reads this
    {
      Fits(lba, bm) && startTable == bm + 2 && startStorage == bm + 130
    }

    ghost function Img(): Image
      reads this
      requires Mounted()
    {
      ImageOf(lba, bm)
    }

    constructor (disk: seq<Sector>)
      ensures lba == disk && sectors == 0 && bm == 0 && startTable == 0 && startStorage == 0
    {
      lba, sectors, bm, startTable, startStorage := disk, 0, 0, 0, 0;
    }

    /** Sector reads and writes succeed exactly on the sectors the disk has. */
    method AtaRead(l: nat, buf: array<byte>) returns (stat: int)
      requires buf.Length == 512
      modifies buf
      ensures l < |lba| ==> stat == 0 && buf[..] == lba[l]
      ensures l >= |lba| ==> stat != 0 && buf[..] == old(buf[..])
    {
      if l >= |lba| { return -1; }
      forall k | 0 <= k < 512 {
        buf[k] := lba[l][k];
      }
      return 0;
    }

    method AtaWrite(l: nat, buf: array<byte>) returns (stat: int)
      requires buf.Length == 512
      modifies this`lba
      ensures l < |old(lba)| ==> stat == 0 && lba == old(lba)[l := buf[..]]
      ensures l >= |old(lba)| ==> stat != 0 && lba == old(lba)
    {
      if l >= |lba| { return -1; }
      lba := lba[l := buf[..]];
      return 0;
    }
  }
}
