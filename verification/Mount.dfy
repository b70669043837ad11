/** Formatting a disk and mounting it again. */
module Mount {
  import opened Bytes
  import opened Regions
  import Chains
  import opened Entries
  import opened Disk
  import opened Table
  import Names
  import opened FileSystem
  import opened Separation
  import opened Superblock
  import Calls
  import Order
  import Sharing

  // ---------------------------------------------------------------- the layout

  /** `fs_compute_layout` */
  function LayoutFor(total: u64): Layout {
    var bm := (total / 8 / 8 + 511) / 512;
    Layout(total, bm, bm + 2, bm + 130)
  }

  /** The storage area starts on the disk exactly from 132 sectors up, and every storage sector that the
      bitmap has a bit for lies on the disk exactly from 4227 sectors up. */
  lemma LayoutBounds(total: u64)
    ensures var l := LayoutFor(total);
      && l.storage == l.bm + 130 && (l.storage < total <==> total >= 132)
      && (l.storage <= total <==> total >= 131)
      && (total > 0 ==> l.bm < total)
      && (l.storage + 4096 * l.bm <= total <==> total >= 4227)
  {
    var t, bm := total / 64, LayoutFor(total).bm;
    assert total / 8 / 8 == t;
    assert 512 * (bm - 1) < t <= 512 * bm || t == bm == 0;
  }

  function ZeroSector(): Sector { seq(512, i => 0) }

  /** Sector `i` after formatting: everything below storage is cleared and the superblock written; on a
      disk that is too small only the last-id sector is spared. */
  function FormatAt(lba: seq<Sector>, l: Layout, i: nat): Sector
    requires i < |lba|
  {
    if l.storage <= |lba| then
      if i == 0 then SuperblockOf(l) else if i < l.storage then ZeroSector() else lba[i]
    else
      if i == l.bm + 1 then lba[i] else ZeroSector()
  }

  function Formatted(lba: seq<Sector>, l: Layout): (d: seq<Sector>)
    ensures |d| == |lba| && forall i :: 0 <= i < |d| ==> d[i] == FormatAt(lba, l, i)
  {
    seq(|lba|, i requires 0 <= i < |lba| => FormatAt(lba, l, i))
  }

  /** What `fs_init` leaves on a disk without an acceptable superblock: the parts of the volume follow one another,
      and the bitmap is the least number of whole sectors with one byte for every 64 sectors of the disk. A bit stands
      for one sector of storage, so that is an eighth of what the whole disk would need. */
  lemma FormattedLayout(was: seq<Sector>, now: seq<Sector>, l: Layout, r: int)
    requires |was| <= MAX_SECTORS && Found(was) == None && Initialised(was, now, l, r)
    ensures r == if l.storage <= |was| then 0 else -1
    ensures l.total == |was| && l.table == 1 + l.bm + 1 && l.storage == l.table + TABLE_ENTRIES * 64 / 512
    ensures 512 * l.bm >= |was| / 64 && (l.bm > 0 ==> 512 * (l.bm - 1) < |was| / 64)
    ensures |was| - 63 <= 8 * (4096 * l.bm) && (l.bm > 0 ==> 8 * (4096 * (l.bm - 1)) < |was|)
  {
  }

  /** What is on each sector after a format: a superblock, zeros up to storage, and storage as it was. When the disk
      ends before storage, everything is zero but the sector of the last id, if there is one. */
  lemma FormattedSectors(was: seq<Sector>, now: seq<Sector>, l: Layout, r: int, i: nat)
    requires |was| <= MAX_SECTORS && Found(was) == None && Initialised(was, now, l, r) && i < |was|
    ensures r == 0 ==> now[i] == if i == 0 then SuperblockOf(l) else if i < l.bm + 130 then ZeroSector() else was[i]
    ensures r != 0 ==> now[i] == if i == l.bm + 1 then was[i] else ZeroSector()
  {
    hide SuperblockOf;
  }

  ghost function LayoutOf(v: Volume): Layout
    reads v
  {
    Layout(v.sectors, v.bm, v.startTable, v.startStorage)
  }

  function Found(lba: seq<Sector>): Option<Layout>
    requires |lba| <= MAX_SECTORS
  {
    if lba == [] then None else Load(lba[0], |lba|)
  }

  /** What `fs_init` makes of the disk `was`: an accepted superblock fixes the layout and only the last id
      is recomputed; otherwise the disk is formatted. */
  ghost predicate Initialised(was: seq<Sector>, now: seq<Sector>, l: Layout, r: int)
    requires |was| <= MAX_SECTORS
  {
    && |now| == |was|
    && match Found(was) {
       case Some(found) =>
         && r == 1 && l == found && l.bm + 130 < |was|
         && (forall i :: 0 <= i < |was| && i != l.bm + 1 ==> now[i] == was[i])
         && IdWord(now[l.bm + 1]) == MaxId(TableOf(was, l.bm), TABLE_ENTRIES)
       case None =>
         && r == (if |was| >= 131 then 0 else -1) && l == LayoutFor(|was|)
         && now == Formatted(was, l)
       }
  }

  // ---------------------------------------------------------------- format, then mount

  lemma ZeroRejected(disk: u64)
    ensures Load(ZeroSector(), disk) == None
  {
    assert ZeroSector()[..8][0] != Magic()[0];
  }

  lemma MaxIdFree(t: seq<Entry>, k: nat)
    requires k <= |t| && forall j :: 0 <= j < k ==> t[j].id == 0
    ensures MaxId(t, k) == 0
  {
  }

  lemma FormattedTable(lba: seq<Sector>, l: Layout, k: nat)
    requires l.storage == l.bm + 130 <= |lba| && k < TABLE_ENTRIES
    ensures EntryAt(Formatted(lba, l), l.bm, k) == FreeSlot()
  {
    var i, slot := l.bm + 2 + k / 8, k % 8;
    assert Formatted(lba, l)[i] == FormatAt(lba, l, i) == ZeroSector();
    hide Decode, Formatted, SuperblockOf;
    DecodeZero(SlotOf(ZeroSector(), slot));
  }

  lemma FormattedLastId(lba: seq<Sector>, l: Layout)
    requires l.storage == l.bm + 130 <= |lba|
    ensures IdWord(Formatted(lba, l)[l.bm + 1]) == 0
    ensures MaxId(TableOf(Formatted(lba, l), l.bm), TABLE_ENTRIES) == 0
  {
    LeValueZero(ZeroSector()[..8]);
    forall k | 0 <= k < TABLE_ENTRIES
      ensures TableOf(Formatted(lba, l), l.bm)[k].id == 0
    {
      FormattedTable(lba, l, k);
    }
    MaxIdFree(TableOf(Formatted(lba, l), l.bm), TABLE_ENTRIES);
  }

  /** After a format the disk carries an acceptable superblock exactly from 132 sectors up. */
  lemma FormattedFound(lba: seq<Sector>)
    requires |lba| <= MAX_SECTORS
    ensures Found(Formatted(lba, LayoutFor(|lba|))) == if |lba| >= 132 then Some(LayoutFor(|lba|)) else None
  {
    var l := LayoutFor(|lba|);
    LayoutBounds(|lba|);
    LoadSuperblock(l, |lba|);
    ZeroRejected(|lba|);
    if lba != [] {
      assert Formatted(lba, l)[0] == FormatAt(lba, l, 0);
    }
  }

  lemma FormatTwice(lba: seq<Sector>, l: Layout)
    ensures Formatted(Formatted(lba, l), l) == Formatted(lba, l)
  {
  }

  /** After a format, the next mount finds the same layout exactly on disks of at least 132 sectors; it
      changes no sector but the last id's, whose value stays 0. A smaller disk is formatted again. */
  lemma FormatThenMount(a: seq<Sector>, b: seq<Sector>, c: seq<Sector>, l: Layout, l': Layout, r: int, r': int)
    requires |a| == |b| <= MAX_SECTORS && Found(a) == None
    requires Initialised(a, b, l, r) && Initialised(b, c, l', r')
    ensures r' == 1 <==> |a| >= 132
    ensures r' != 1 ==> r' == r
    ensures l' == l == LayoutFor(|a|)
    ensures forall i :: 0 <= i < |b| && i != l.bm + 1 ==> c[i] == b[i]
    ensures r' == 1 ==> IdWord(c[l.bm + 1]) == IdWord(b[l.bm + 1]) == 0
  {
    hide Found, Formatted, IdWord, TableOf, MaxId, LayoutFor;
    FormattedFound(a);
    LayoutBounds(|a|);
    if |a| >= 132 {
      assert Found(b) == Some(l);
      FormattedLastId(a, l);
    } else {
      assert Found(b) == None;
      FormatTwice(a, l);
    }
  }

  /** A mounted disk is mounted again with the same layout, and nothing more changes. */
  lemma MountAgain(a: seq<Sector>, b: seq<Sector>, c: seq<Sector>, l: Layout, l': Layout, r': int)
    requires |a| == |b| <= MAX_SECTORS
    requires Initialised(a, b, l, 1) && Initialised(b, c, l', r')
    ensures r' == 1 && l' == l
    ensures forall i :: 0 <= i < |b| && i != l.bm + 1 ==> c[i] == b[i]
    ensures IdWord(c[l.bm + 1]) == IdWord(b[l.bm + 1])
  {
    assert b[0] == a[0];
    assert TableOf(a, l.bm) == TableOf(b, l.bm);
  }

  // ---------------------------------------------------------------- mounting after calls

  /** On a disk that carries the volume's superblock, a mount is the mount of the image: it recomputes the
      last id and changes nothing else that the sectors mean. */
  lemma MountIsRemount(was: seq<Sector>, now: seq<Sector>, l: Layout)
    requires |was| <= MAX_SECTORS && Found(was) == Some(l) && Fits(was, l.bm) && Initialised(was, now, l, 1)
    ensures Fits(now, l.bm) && ImageOf(now, l.bm) == Remount(ImageOf(was, l.bm))
  {
    assert now[l.bm + 130..] == was[l.bm + 130..];
    assert BitsOf(now, l.bm) == BitsOf(was, l.bm);
    assert TableOf(now, l.bm) == TableOf(was, l.bm);
  }

  /** A disk of the same size that starts with the same sector is found with the same layout. */
  lemma FoundAgain(a: seq<Sector>, b: seq<Sector>, bm: nat)
    requires Fits(a, bm) && bm < |b| && Fits(b, bm) && SameShape(ImageOf(a, bm), ImageOf(b, bm))
    ensures |b| == |a| && Found(b) == Found(a)
  {
  }

  /** Mounted, used for any run of calls and mounted again, a volume has the same layout and is as the run left
      it. */
  lemma MountAfterRun(a: seq<Sector>, l: Layout, cs: seq<Call>, b: seq<Sector>, c: seq<Sector>, l': Layout, r': int)
    requires |a| <= MAX_SECTORS && Found(a) == Some(l) && Fits(a, l.bm) && ImageOk(ImageOf(a, l.bm))
    requires forall x :: x in cs ==> Legal(x)
    requires Fits(b, l.bm) && ImageOf(b, l.bm) == Run(ImageOf(a, l.bm), cs) && Initialised(b, c, l', r')
    ensures r' == 1 && l' == l && Fits(c, l.bm) && ImageOf(c, l.bm) == ImageOf(b, l.bm)
  {
    RunKeepsShape(ImageOf(a, l.bm), cs);
    FoundAgain(a, b, l.bm);
    MountIsRemount(b, c, l);
    RemountChangesNothing(ImageOf(b, l.bm));
  }

  // ---------------------------------------------------------------- a fresh disk and every run on it

  ghost function Empty(l: Layout, sectors: seq<Sector>): Image {
    Image(SuperblockOf(l), Store(sectors, seq(4096 * l.bm, i => false)), seq(TABLE_ENTRIES, i => FreeSlot()), 0)
  }

  /** A formatted disk holds no file: every bit is clear and every slot free. */
  lemma FormattedImage(lba: seq<Sector>)
    requires 4227 <= |lba| <= MAX_SECTORS
    ensures var l := LayoutFor(|lba|);
      && Fits(Formatted(lba, l), l.bm)
      && ImageOf(Formatted(lba, l), l.bm) == Empty(l, lba[l.storage..])
  {
    hide Decode, Load, SuperblockOf, MaxId, IdWord;
    LayoutBounds(|lba|);
    var l := LayoutFor(|lba|);
    var d := Formatted(lba, l);
    forall k | 0 <= k < 4096 * l.bm
      ensures !BitAt(d, l.bm, k)
    {
      Bits.BitOfZero(k % 8);
    }
    forall k | 0 <= k < TABLE_ENTRIES
      ensures EntryAt(d, l.bm, k) == FreeSlot()
    {
      FormattedTable(lba, l, k);
    }
    FormattedLastId(lba, l);
    assert d[l.storage..] == lba[l.storage..];
    assert BitsOf(d, l.bm) == Empty(l, lba[l.storage..]).store.bits;
    assert TableOf(d, l.bm) == Empty(l, lba[l.storage..]).table;
  }

  /** No region's pointer names a region, as on a disk of zeros. A format leaves storage as it was. */
  ghost predicate NoPointers(l: Layout, sectors: seq<Sector>)
    requires 4096 * l.bm <= |sectors|
  {
    forall r: nat {:trigger Next(Empty(l, sectors).store, REGION, r)} ::
      InGrid(4096 * l.bm, REGION, r) ==> IsEnd(Next(Empty(l, sectors).store, REGION, r))
  }

  /** Storage full of zeros has no pointers, and neither has storage full of ones. */
  lemma NoPointersMeans(l: Layout, sectors: seq<Sector>)
    requires 4096 * l.bm <= |sectors|
    ensures NoPointers(l, sectors) <==>
      forall r: nat {:trigger Next(Empty(l, sectors).store, REGION, r)} :: InGrid(4096 * l.bm, REGION, r) ==>
        var p := Next(Empty(l, sectors).store, REGION, r); p == 0 || p == 0xFFFF_FFFF_FFFF_FFFF
  {
  }

  /** Every region's pointer ends the chain or names a region, as after any run of calls on an earlier volume. */
  ghost predicate PointersInside(l: Layout, sectors: seq<Sector>)
    requires 4096 * l.bm <= |sectors|
  {
    forall r: nat {:trigger Next(Empty(l, sectors).store, REGION, r)} :: InGrid(4096 * l.bm, REGION, r) ==>
      var p := Next(Empty(l, sectors).store, REGION, r); IsEnd(p) || InGrid(4096 * l.bm, REGION, p)
  }

  lemma EmptyOk(l: Layout, sectors: seq<Sector>)
    requires 4096 * l.bm <= |sectors| < NOT_FOUND
    ensures ImageOk(Empty(l, sectors)) <==> PointersInside(l, sectors)
  {
    var m := Empty(l, sectors);
    Calls.EightsOnGrid(512 * l.bm);
    MaxIdFree(m.table, TABLE_ENTRIES);
    Names.FreeNameEmpty(FreeSlot());
  }

  /** Of the bytes a format leaves in storage only the regions' pointers matter. */
  lemma EmptySeparated(l: Layout, sectors: seq<Sector>)
    requires 4096 * l.bm <= |sectors| < NOT_FOUND
    ensures Separated(Empty(l, sectors)) <==> NoPointers(l, sectors)
  {
    EmptyOk(l, sectors);
    var m := Empty(l, sectors);
    if NoPointers(l, sectors) {
      assert SepOk(m, seq(TABLE_ENTRIES, i => []));
    }
  }

  /** Formatting over a volume of the same size gives a good image, whatever files the volume held. */
  lemma Reformatted(m: Image, l: Layout)
    requires ImageOk(m) && |m.store.bits| == 4096 * l.bm
    ensures ImageOk(Empty(l, m.store.sectors))
  {
    EmptyOk(l, m.store.sectors);
    forall r: nat | InGrid(4096 * l.bm, REGION, r)
      ensures Next(Empty(l, m.store.sectors).store, REGION, r) == Next(m.store, REGION, r)
    {
    }
  }

  /** So the run that ends with two files sharing a region starts from any formatted volume whose storage held no
      pointers. */
  lemma FormattedBlank(lba: seq<Sector>)
    requires 4227 <= |lba| <= MAX_SECTORS
    ensures var l := LayoutFor(|lba|);
      && Fits(Formatted(lba, l), l.bm) && 4096 * l.bm <= |lba[l.storage..]|
      && (Sharing.Blank(ImageOf(Formatted(lba, l), l.bm)) <==> NoPointers(l, lba[l.storage..]))
  {
    hide Formatted, FormatAt, PointersInside, MaxId, IdWord;
    var l := LayoutFor(|lba|);
    LayoutBounds(|lba|);
    FormattedImage(lba);
    BlankEmpty(l, lba[l.storage..]);
  }

  lemma BlankEmpty(l: Layout, sectors: seq<Sector>)
    requires 4096 * l.bm <= |sectors| < NOT_FOUND && l.bm > 0
    ensures Sharing.Blank(Empty(l, sectors)) <==> NoPointers(l, sectors)
  {
    EmptyOk(l, sectors);
  }

  /** A format over storage whose pointers name regions gives a good volume. Whatever calls are then made, every
      state has every file in its own regions and free regions without pointers exactly when there were no
      pointers at the start and the calls remove only one-region files. */
  lemma FormatThenRun(lba: seq<Sector>, cs: seq<Call>)
    requires 4227 <= |lba| <= MAX_SECTORS && forall c :: c in cs ==> Legal(c)
    ensures var l := LayoutFor(|lba|);
      var d := Formatted(lba, l);
      && Fits(d, l.bm) && 4096 * l.bm <= |lba[l.storage..]|
      && (ImageOk(ImageOf(d, l.bm)) <==> PointersInside(l, lba[l.storage..]))
      && (PointersInside(l, lba[l.storage..]) ==>
          (SeparatedThroughout(ImageOf(d, l.bm), cs) <==>
            NoPointers(l, lba[l.storage..]) && OneRegionRun(ImageOf(d, l.bm), cs)))
  {
    var l := LayoutFor(|lba|);
    LayoutBounds(|lba|);
    FormattedImage(lba);
    EmptyOk(l, lba[l.storage..]);
    if PointersInside(l, lba[l.storage..]) {
      EmptyRun(l, lba[l.storage..], cs);
    }
  }

  lemma EmptyRun(l: Layout, sectors: seq<Sector>, cs: seq<Call>)
    requires 4096 * l.bm <= |sectors| < NOT_FOUND && ImageOk(Empty(l, sectors)) && forall c :: c in cs ==> Legal(c)
    ensures SeparatedThroughout(Empty(l, sectors), cs) <==>
      NoPointers(l, sectors) && OneRegionRun(Empty(l, sectors), cs)
  {
    EmptySeparated(l, sectors);
    hide Separated, NoPointers, Legal, Step, ImageOk;
    if NoPointers(l, sectors) {
      RunSeparatedIff(Empty(l, sectors), cs);
    } else {
      NotThroughout(Empty(l, sectors), cs);
    }
  }

  /** From a format on, after calls that are tidy, every live entry whose path is not too long is found by it. */
  lemma FormatThenPaths(lba: seq<Sector>, cs: seq<Call>, k: nat, cur: u64)
    requires 4227 <= |lba| <= MAX_SECTORS && (forall c :: c in cs ==> Legal(c)) && k < TABLE_ENTRIES
    requires var l := LayoutFor(|lba|); var d := Formatted(lba, l);
      Fits(d, l.bm) && ImageOk(ImageOf(d, l.bm)) && Order.TidyRun(ImageOf(d, l.bm), cs)
    ensures var l := LayoutFor(|lba|);
      var m := Run(ImageOf(Formatted(lba, l), l.bm), cs);
      && ImageOk(m)
      && (m.table[k].id != 0 && |Names.PathOf(m.table, m.table[k].id)| <= 1023 ==>
          Names.PathToId(m.table, Names.PathOf(m.table, m.table[k].id), cur) == m.table[k].id)
  {
    hide Order.Ordered, Formatted, SuperblockOf, ImageOk, Names.PathOf, Names.PathToId;
    var l := LayoutFor(|lba|);
    FormattedImage(lba);
    EmptyOrdered(l, lba[l.storage..]);
    Order.RunPathsResolve(ImageOf(Formatted(lba, l), l.bm), cs, k, cur);
  }

  lemma EmptyOrdered(l: Layout, sectors: seq<Sector>)
    ensures Order.Ordered(Empty(l, sectors).table)
  {
  }

  /** Formatted, used for any run of calls and mounted again: `fs_init` finds the layout of the format and
      leaves the volume as the run left it. */
  lemma FormatRunMount(lba: seq<Sector>, cs: seq<Call>, b: seq<Sector>, c: seq<Sector>, l': Layout, r': int)
    requires 4227 <= |lba| <= MAX_SECTORS && forall x :: x in cs ==> Legal(x)
    requires var l := LayoutFor(|lba|); var d := Formatted(lba, l);
      Fits(d, l.bm) && ImageOk(ImageOf(d, l.bm)) && Fits(b, l.bm) && ImageOf(b, l.bm) == Run(ImageOf(d, l.bm), cs)
    requires |b| <= MAX_SECTORS && Initialised(b, c, l', r')
    ensures var l := LayoutFor(|lba|);
      r' == 1 && l' == l && Fits(c, l.bm) && ImageOf(c, l.bm) == ImageOf(b, l.bm)
  {
    var l := LayoutFor(|lba|);
    FormattedFound(lba);
    MountAfterRun(Formatted(lba, l), l, cs, b, c, l', r');
  }

  // ---------------------------------------------------------------- the calls

  method FsComputeLayout(v: Volume, total: u64)
    modifies v`sectors, v`bm, v`startTable, v`startStorage
    ensures LayoutOf(v) == LayoutFor(total)
  {
    v.sectors := total;
    v.bm := (v.sectors / 8 / 8 + 511) / 512;
    v.startTable := v.bm + 2;
    v.startStorage := v.startTable + TABLE_SECTORS;
  }

  method FsWriteRetry(v: Volume, l: nat, buf: array<byte>) returns (r: int)
    requires buf.Length == 512
    modifies v`lba
    ensures r == 0 <==> l < |old(v.lba)|
    ensures v.lba == if l < |old(v.lba)| then old(v.lba)[l := buf[..]] else old(v.lba)
  {
    r := 0;
    for attempt := 0 to 5
      invariant v.lba == old(v.lba) && (attempt > 0 ==> r != 0 && l >= |v.lba|)
    {
      r := v.AtaWrite(l, buf);
      if r == 0 { return 0; }
    }
  }

  method Cleared512() returns (buf: array<byte>)
    ensures fresh(buf) && buf.Length == 512 && buf[..] == ZeroSector()
  {
    buf := new byte[512];
    for i := 0 to 512
      invariant forall j :: 0 <= j < i ==> buf[j] == 0
    {
      buf[i] := 0;
    }
  }

  method PutMagic(sb: array<byte>)
    requires sb.Length == 512 && sb[..] == ZeroSector()
    modifies sb
    ensures sb[..8] == Magic() && forall j :: 8 <= j < 512 ==> sb[j] == 0
  {
    for i := 0 to 8
      invariant sb[..i] == Magic()[..i] && forall j :: i <= j < 512 ==> sb[j] == 0
    {
      sb[i] := Magic()[i];
      assert sb[..i + 1] == sb[..i] + [sb[i]];
    }
  }

  method PutPayload(sb: array<byte>, l: Layout)
    requires sb.Length == 512 && sb[..] == ZeroSector()
    modifies sb
    ensures sb[..PAYLOAD] == Payload(l) && forall j :: PAYLOAD <= j < 512 ==> sb[j] == 0
  {
    PutMagic(sb);
    SbPut64(sb, 8, VERSION);
    SbPut64(sb, 16, l.total);
    SbPut64(sb, 24, l.bm);
    SbPut64(sb, 32, l.table);
    SbPut64(sb, 40, l.storage);
    SbPut64(sb, 48, TABLE_SECTORS);
  }

  method FsWriteSuperblock(v: Volume) returns (r: int)
    requires v.lba != []
    modifies v`lba
    ensures r == 0 && v.lba == old(v.lba)[0 := SuperblockOf(LayoutOf(v))]
  {
    var sb := Cleared512();
    var l := Layout(v.sectors, v.bm, v.startTable, v.startStorage);
    PutPayload(sb, l);
    var h := SbChecksum(sb);
    SbPut64(sb, 56, h);
    assert sb[..] == sb[..64] + seq(448, i => 0);
    r := FsWriteRetry(v, 0, sb);
  }

  /** Sector `j` while the table is being cleared, up to but not including its sector `i`. */
  ghost predicate ClearedTo(was: seq<Sector>, now: seq<Sector>, bm: nat, i: nat) {
    |now| == |was| && forall j :: 0 <= j < |was| ==>
      now[j] == if j <= bm || bm + 2 <= j < bm + 2 + i then ZeroSector() else was[j]
  }

  method ClearBitmap(v: Volume, zero: array<byte>) returns (r: int)
    requires zero.Length == 512 && zero[..] == ZeroSector() && v.bm < |v.lba|
    modifies v`lba
    ensures r == 0 && ClearedTo(old(v.lba), v.lba, v.bm, 0)
  {
    r := FsWriteRetry(v, 0, zero);
    for i := 0 to v.bm
      invariant |v.lba| == |old(v.lba)|
      invariant forall j :: 0 <= j < |v.lba| ==> v.lba[j] == if j <= i then ZeroSector() else old(v.lba)[j]
    {
      var w := FsWriteRetry(v, 1 + i, zero);
      if w != 0 { return -1; }
    }
    return 0;
  }

  method ClearTable(v: Volume, zero: array<byte>, ghost was: seq<Sector>) returns (r: int)
    requires zero.Length == 512 && zero[..] == ZeroSector() && v.startTable == v.bm + 2
    requires ClearedTo(was, v.lba, v.bm, 0)
    modifies v`lba
    ensures r == 0 <==> v.bm + 130 <= |was|
    ensures r == 0 ==> ClearedTo(was, v.lba, v.bm, TABLE_SECTORS)
    ensures r != 0 ==> v.bm + 130 > |was| && ClearedTo(was, v.lba, v.bm, |was|)
  {
    for i := 0 to TABLE_SECTORS
      invariant ClearedTo(was, v.lba, v.bm, i) && (i > 0 ==> v.bm + 2 + i <= |was|)
    {
      var w := FsWriteRetry(v, v.startTable + i, zero);
      if w != 0 { return -1; }
    }
    return 0;
  }

  lemma FormatDone(was: seq<Sector>, now: seq<Sector>, l: Layout)
    requires l.storage == l.bm + 130 <= |was| && ClearedTo(was, now, l.bm, TABLE_SECTORS)
    ensures now[l.bm + 1 := ZeroSector()][0 := SuperblockOf(l)] == Formatted(was, l)
  {
  }

  lemma FormatFailed(was: seq<Sector>, now: seq<Sector>, l: Layout)
    requires l.storage == l.bm + 130 > |was| && ClearedTo(was, now, l.bm, |was|)
    ensures now == Formatted(was, l)
  {
  }

  method FsFormat(v: Volume) returns (r: int)
    requires v.lba != [] && |v.lba| <= MAX_SECTORS && LayoutOf(v) == LayoutFor(|v.lba|)
    modifies v`lba
    ensures r == 0 <==> v.startStorage <= |v.lba|
    ensures v.lba == Formatted(old(v.lba), LayoutOf(v))
  {
    ghost var was := v.lba;
    var zero := Cleared512();
    LayoutBounds(|v.lba|);
    hide Formatted, ClearedTo, SuperblockOf;
    r := ClearBitmap(v, zero);
    if r != 0 { return -1; }
    r := ClearTable(v, zero, was);
    if r != 0 {
      FormatFailed(was, v.lba, LayoutOf(v));
      return -1;
    }
    FormatDone(was, v.lba, LayoutOf(v));
    r := FsWriteRetry(v, v.startTable - 1, zero);
    r := FsWriteSuperblock(v);
  }

  method FsLoadSuperblock(v: Volume, disk: u64) returns (ok: bool)
    requires v.lba != []
    modifies v`sectors, v`bm, v`startTable, v`startStorage
    ensures ok <==> Load(v.lba[0], disk).Some?
    ensures LayoutOf(v) == if ok then Load(v.lba[0], disk).value else old(LayoutOf(v))
  {
    ok := false;
    var sb := new byte[512];
    var stat := v.AtaRead(0, sb);
    if stat != 0 { return; }
    var magic := SbMagicOk(sb);
    if !magic { return; }
    var stored := SbGet64(sb, 56);
    var sum := SbChecksum(sb);
    if stored != sum { return; }
    var version := SbGet64(sb, 8);
    if version != VERSION { return; }
    var total := SbGet64(sb, 16);
    var bitmap := SbGet64(sb, 24);
    var table := SbGet64(sb, 32);
    var storage := SbGet64(sb, 40);
    var tsecs := SbGet64(sb, 48);
    if tsecs != TABLE_SECTORS { return; }
    if table != Add64(bitmap, 2) || storage != Add64(table, tsecs) { return; }
    if total > disk || storage >= total { return; }
    v.sectors, v.bm, v.startTable, v.startStorage := total, bitmap, table, storage;
    return true;
  }

  lemma FormattedNothing(lba: seq<Sector>, l: Layout)
    requires lba == []
    ensures lba == Formatted(lba, l)
  {
  }

  lemma LoadedLayout(s: Sector, disk: u64)
    requires Load(s, disk).Some? && Load(s, disk).value.bm + 130 < U64
    ensures var l := Load(s, disk).value; l.table == l.bm + 2 && l.storage == l.bm + 130 < disk
  {
  }

  /** Mounting the disk, formatting it first unless it carries an acceptable superblock. */
  method FsInit(v: Volume) returns (r: int)
    requires |v.lba| <= MAX_SECTORS
    requires match Found(v.lba) case None => true case Some(l) => l.bm + 130 < U64
    modifies v
    ensures Initialised(old(v.lba), v.lba, LayoutOf(v), r)
    ensures r != -1 && Fits(v.lba, v.bm) ==> v.Mounted()
  {
    hide Formatted, TableOf, MaxId, IdWord, SuperblockOf, Load, ImageOf;
    var total := |v.lba|;
    LayoutBounds(total);
    if total == 0 {
      FsComputeLayout(v, 0);
      FormattedNothing(v.lba, LayoutOf(v));
      return -1;
    }
    var ok := FsLoadSuperblock(v, total);
    if ok {
      LoadedLayout(v.lba[0], total);
      ReloadLastIdToDisk(v);
      return 1;
    }
    FsComputeLayout(v, total);
    r := FsFormat(v);
    if r != 0 { return -1; }
  }
}
