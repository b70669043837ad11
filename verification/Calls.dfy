/** The public file system calls on the mounted volume, each proved to do what its specification on
    values says. */
module Calls {
  import opened Bytes
  import opened Regions
  import opened Entries
  import opened Disk
  import Bitmap
  import opened FileData
  import opened Table
  import opened Names
  import opened PathNames
  import opened FileSystem
  import opened PathCalls
  import Creation
  import Transfers

  ghost predicate Ready(v: Volume)
    reads v
  {
    v.Mounted() && ImageOk(v.Img())
  }

  lemma {:induction false} EightsOnGrid(k: nat)
    ensures OnGrid(8 * k, 8)
  {
    if k > 0 {
      EightsOnGrid(k - 1);
      assert 8 * k - 8 == 8 * (k - 1);
    }
  }

  lemma RegionsTile()
    ensures OnGrid(4096, REGION)
  {
    EightsOnGrid(512);
  }

  /** What the table scans may rely on. */
  lemma TableReady(v: Volume)
    requires Ready(v)
    ensures HasTable(v, v.Img().table) && IdsOk(v.Img().table) && Named(v.Img().table)
  {
    forall k | 0 <= k < TABLE_ENTRIES
      ensures |NameOfEntry(v.Img().table[k])| <= 23
    {
      assert EntryOk(v.Img().table[k], |v.Img().store.bits|);
    }
  }

  /** A path the kernel's fixed buffers have room for, used from directory `cur`. */
  ghost predicate Usable(m: Image, path: seq<byte>, cur: u64)
    requires ImageOk(m)
  {
    0 !in path && (!IsAbsolute(path) ==> Printable(m.table, cur))
  }

  // ---------------------------------------------------------------- creating

  /** Resolving the directory a creation goes into. */
  method NewParent(v: Volume, s: Scratch, path: seq<byte>, cur: u64) returns (parent: u64)
    requires Ready(v) && s.Idle() && Usable(v.Img(), path, cur)
    modifies s`point, s`firstOne, s.rows, s.absRes
    ensures s.Idle()
    ensures parent == ParentOf(v.Img().table, PathToAbs(v.Img().table, path, cur), cur)
  {
    ghost var t := v.Img().table;
    TableReady(v);
    var p := FsPathToAbs(v, s, path, cur, t);
    parent := FPathToPath(v, p, cur, t);
  }

  /** Adding the entry and recomputing the last id. */
  method AddAndReload(v: Volume, e: Entry, ghost m: Image)
    requires v.Mounted() && v.Img() == m && |m.table| == TABLE_ENTRIES
    modifies v`lba
    ensures v.Mounted() && v.Img() == WithTable(m, AddEntry(m.table, e))
  {
    var r := WriteEntryToTable(v, e);
    ReloadLastIdToDisk(v);
  }

  method FsMkFile(v: Volume, s: Scratch, path: seq<byte>, cur: u64) returns (r: int)
    requires Ready(v) && s.Idle() && Usable(v.Img(), path, cur) && |LastName(path)| <= 23
    modifies v`lba, s`point, s`firstOne, s.rows, s.absRes
    ensures Ready(v) && s.Idle()
    ensures v.Img() == MkFile(old(v.Img()), path, cur).0 && r == MkFile(old(v.Img()), path, cur).1
  {
    ghost var m := v.Img();
    MkFileKeepsOk(m, path, cur);
    var name := PathToName(path);
    var parent := NewParent(v, s, path, cur);
    if parent == NOT_FOUND { return 1; }
    var last := ReadLastIdFromDisk(v);
    var id := Add64(last, 1);
    if id == NOT_FOUND { return 1; }
    RegionsTile();
    var f := Bitmap.GetDataRegion(v, REGION);
    if f == NOT_FOUND { return 1; }
    Bitmap.MarkRegion(v, f, REGION);
    AddAndReload(v, Entry(name, 0, parent, id, FILE, REGION, 0, f), v.Img());
    return 0;
  }

  method FsMkDir(v: Volume, s: Scratch, path: seq<byte>, cur: u64) returns (r: int)
    requires Ready(v) && s.Idle() && Usable(v.Img(), path, cur) && |LastName(path)| <= 23
    modifies v`lba, s`point, s`firstOne, s.rows, s.absRes
    ensures Ready(v) && s.Idle()
    ensures v.Img() == MkDir(old(v.Img()), path, cur).0 && r == MkDir(old(v.Img()), path, cur).1
  {
    ghost var m := v.Img();
    MkDirKeepsOk(m, path, cur);
    var name := PathToName(path);
    var parent := NewParent(v, s, path, cur);
    if parent == NOT_FOUND { return 1; }
    var last := ReadLastIdFromDisk(v);
    var id := Add64(last, 1);
    if id == NOT_FOUND { return 1; }
    AddAndReload(v, Entry(name, 4, parent, id, DIRECTORY, 0, 0, 0), m);
    return 0;
  }

  // ---------------------------------------------------------------- writing and reading

  /** Resolving a path to a file's slot, as writing and reading do. */
  method FindFile(v: Volume, s: Scratch, path: seq<byte>, cur: u64) returns (found: bool, e: Entry, sector: nat, slot: nat)
    requires Ready(v) && s.Idle() && Usable(v.Img(), path, cur)
    modifies s`point, s`firstOne, s.rows, s.absRes
    ensures s.Idle()
    ensures var k := FileSlot(v.Img().table, IdOf(v.Img().table, path, cur));
      if found then sector < TABLE_SECTORS && slot < 8 && k == Some(8 * sector + slot) && e == v.Img().table[k.value]
      else k == None
  {
    hide IdOf, HasTable, IdsOk, ImageOf, Named, Printable;
    ghost var t := v.Img().table;
    TableReady(v);
    found, e, sector, slot := false, FreeSlot(), 0, 0;
    var id := PathCalls.Resolve(v, s, path, cur, t);
    if id == NOT_FOUND || id == 0 { return; }
    var stat;
    stat, e, sector, slot := FindEntryById(v, id, t);
    found := stat == 0 && e.kind == FILE;
  }

  method FsWriteFile(v: Volume, s: Scratch, path: seq<byte>, src: seq<byte>, size: u64, cur: u64) returns (r: int)
    requires Ready(v) && s.Idle() && Usable(v.Img(), path, cur)
    requires size <= |src| && (size == 0 ==> 0 in src) && |src| + 7 < U64
    modifies v`lba, s`point, s`firstOne, s.rows, s.absRes
    ensures Ready(v) && s.Idle()
    ensures v.Img() == WriteFile(old(v.Img()), path, DataOf(src, size), cur).0
    ensures r == WriteFile(old(v.Img()), path, DataOf(src, size), cur).1
  {
    hide IdsOk, GridOk, WriteEntry, IdOf, MaxId, ImageOf, TableOf, BitsOf;
    ghost var m := v.Img();
    WriteKeepsOk(m, IdOf(m.table, path, cur), DataOf(src, size));
    var found, e, sector, slot := FindFile(v, s, path, cur);
    if !found { return 1; }
    assert EntryOk(e, |m.store.bits|);
    WriteFound(v, src, size, e, sector, slot, m);
    return 0;
  }

  /** Two disks with the same table have the same table sectors, byte for byte. */
  lemma SameTableSector(lba: seq<Sector>, lba': seq<Sector>, bm: nat, i: nat)
    requires bm + 130 <= |lba| == |lba'| && i < TABLE_SECTORS && TableOf(lba, bm) == TableOf(lba', bm)
    ensures lba'[bm + 2 + i] == lba[bm + 2 + i]
  {
    var a, b := lba[bm + 2 + i], lba'[bm + 2 + i];
    forall p | 0 <= p < 512
      ensures a[p] == b[p]
    {
      var slot := p / 64;
      SameSlot(lba, lba', bm, i, slot);
      assert SlotOf(a, slot)[p - 64 * slot] == a[p] && SlotOf(b, slot)[p - 64 * slot] == b[p];
    }
  }

  lemma SameSlot(lba: seq<Sector>, lba': seq<Sector>, bm: nat, i: nat, slot: nat)
    requires bm + 130 <= |lba| == |lba'| && i < TABLE_SECTORS && slot < 8 && TableOf(lba, bm) == TableOf(lba', bm)
    ensures SlotOf(lba'[bm + 2 + i], slot) == SlotOf(lba[bm + 2 + i], slot)
  {
    var k := 8 * i + slot;
    assert k / 8 == i && k % 8 == slot;
    assert TableOf(lba, bm)[k] == EntryAt(lba, bm, k) && TableOf(lba', bm)[k] == EntryAt(lba', bm, k);
    EncodeDecode(SlotOf(lba[bm + 2 + i], slot));
    EncodeDecode(SlotOf(lba'[bm + 2 + i], slot));
  }

  /** The regions are written while the table sector waits in its buffer; then it is stored with the
      entry's new size. */
  method WriteFound(v: Volume, src: seq<byte>, size: u64, e: Entry, sector: nat, slot: nat, ghost m: Image)
    requires v.Mounted() && v.Img() == m && size <= |src| && (size == 0 ==> 0 in src) && |src| + 7 < U64
    requires sector < TABLE_SECTORS && slot < 8 && |m.table| == TABLE_ENTRIES && m.table[8 * sector + slot] == e
    requires GridOk(m.store, REGION) && IsFile(e) && EntryOk(e, |m.store.bits|)
    modifies v`lba
    ensures v.Mounted()
    ensures var t := WriteEntry(m.store, e, DataOf(src, size));
      v.Img() == m.(store := t.0, table := m.table[8 * sector + slot := t.1])
  {
    hide WriteEntry, ImageOf, Encode, TableOf, BitsOf;
    var buf := new byte[512];
    var stat := v.AtaRead(v.startTable + sector, buf);
    var e' := WriteData(v, src, size, e, m);
    ghost var t := WriteEntry(m.store, e, DataOf(src, size));
    assert v.Img() == m.(store := t.0) && e' == t.1;
    StoreEntry(v, buf, sector, slot, Encode(e'), e');
  }

  method WriteData(v: Volume, src: seq<byte>, size: u64, e: Entry, ghost m: Image) returns (e': Entry)
    requires v.Mounted() && v.Img() == m && size <= |src| && (size == 0 ==> 0 in src) && |src| + 7 < U64
    requires GridOk(m.store, REGION) && IsFile(e) && EntryOk(e, |m.store.bits|)
    modifies v`lba
    ensures v.Mounted() && v.startTable == old(v.startTable)
    ensures forall i :: v.startTable <= i < v.startTable + TABLE_SECTORS ==> v.lba[i] == old(v.lba[i])
    ensures var t := WriteEntry(m.store, e, DataOf(src, size)); v.Img() == m.(store := t.0) && e' == t.1
  {
    ghost var lba := v.lba;
    RegionsTile();
    e' := FsWriteFileInside(v, src, size, e);
    assert |v.Img().store.sectors| == |m.store.sectors|;
    forall i | v.startTable <= i < v.startTable + TABLE_SECTORS
      ensures v.lba[i] == lba[i]
    {
      SameTableSector(lba, v.lba, v.bm, i - v.startTable);
    }
  }

  /** A buffer of `len` bytes has room for what a read of at most `n` bytes finds, and a NUL. */
  ghost predicate RoomFor(len: nat, m: Image, path: seq<byte>, cur: u64, n: nat)
    requires ImageOk(m)
  {
    match FileSlot(m.table, IdOf(m.table, path, cur))
    case None => true
    case Some(k) => len > Min(m.table[k].size, n)
  }

  /** A successful read leaves the file's bytes, up to one less than the limit, and a NUL. */
  method FsReadFile(v: Volume, s: Scratch, path: seq<byte>, buffer: array<byte>, maxSize: u64, cur: u64) returns (r: int)
    requires Ready(v) && s.Idle() && Usable(v.Img(), path, cur) && buffer != s.absRes
    requires RoomFor(buffer.Length, v.Img(), path, cur, ReadLimit(maxSize))
    modifies s`point, s`firstOne, s.rows, s.absRes, buffer
    ensures s.Idle()
    ensures match ReadBytes(v.Img(), path, cur, ReadLimit(maxSize))
            case None => r == 1 && buffer[..] == old(buffer[..])
            case Some(bytes) => r == 0 && Filled(buffer[..], old(buffer[..]), 0, bytes + [0])
  {
    hide IdOf, MaxId, Filled, IdsOk;
    var found, e, sector, slot := FindFile(v, s, path, cur);
    if !found { return 1; }
    assert EntryOk(e, |v.Img().store.bits|);
    FsReadFileInside(v, buffer, maxSize, e);
    return 0;
  }

  // ---------------------------------------------------------------- removing

  method FsRmFileById(v: Volume, id: u64) returns (r: int)
    requires Ready(v)
    modifies v`lba
    ensures Ready(v)
    ensures v.Img() == RmFileById(old(v.Img()), id).0 && r == RmFileById(old(v.Img()), id).1
  {
    ghost var m := v.Img();
    TableReady(v);
    RmFileKeepsOk(m, id);
    var stat, e, sector, slot := FindEntryById(v, id, m.table);
    if stat != 0 { return 1; }
    if e.kind != FILE { return 2; }
    assert EntryOk(e, |m.store.bits|);
    FreeFileRegions(v, e);
    EraseTableEntry(v, sector, slot);
    ReloadLastIdToDisk(v);
    return 0;
  }

  method FsRmDirById(v: Volume, id: u64) returns (r: int)
    requires Ready(v)
    modifies v`lba
    ensures Ready(v)
    ensures v.Img() == RmDirById(old(v.Img()), id).0 && r == RmDirById(old(v.Img()), id).1
  {
    ghost var m := v.Img();
    TableReady(v);
    RmDirKeepsOk(m, id);
    var stat, e, sector, slot := FindEntryById(v, id, m.table);
    if stat != 0 { return 1; }
    if e.kind != DIRECTORY { return 2; }
    var children := DirHasChildren(v, id, m.table);
    if children { return 1; }
    EraseTableEntry(v, sector, slot);
    ReloadLastIdToDisk(v);
    return 0;
  }

  method FsRmFile(v: Volume, path: seq<byte>, cur: u64) returns (r: int)
    requires Ready(v) && 0 !in path
    modifies v`lba
    ensures Ready(v)
    ensures var id := PathToId(old(v.Img().table), path, cur);
      v.Img() == RmFileById(old(v.Img()), id).0 && r == RmFileById(old(v.Img()), id).1
  {
    TableReady(v);
    var id := FsPathToId(v, path, cur, v.Img().table);
    if id == NOT_FOUND || id == 0 { return 1; }
    r := FsRmFileById(v, id);
  }

  method FsRmDir(v: Volume, path: seq<byte>, cur: u64) returns (r: int)
    requires Ready(v) && 0 !in path
    modifies v`lba
    ensures Ready(v)
    ensures var id := PathToId(old(v.Img().table), path, cur);
      v.Img() == RmDirById(old(v.Img()), id).0 && r == RmDirById(old(v.Img()), id).1
  {
    TableReady(v);
    var id := FsPathToId(v, path, cur, v.Img().table);
    if id == NOT_FOUND || id == 0 { return 1; }
    r := FsRmDirById(v, id);
  }

  // ---------------------------------------------------------------- copying

  /** The checks on the source of a copy. */
  method CopySource(v: Volume, s: Scratch, src: seq<byte>, cur: u64) returns (r: int, srcId: u64, size: nat)
    requires Ready(v) && s.Idle() && Usable(v.Img(), src, cur)
    modifies s`point, s`firstOne, s.rows, s.absRes
    ensures s.Idle() && srcId == IdOf(v.Img().table, src, cur)
    ensures var t := v.Img().table;
      var k := if srcId == NOT_FOUND || srcId == 0 then None else SlotWith(t, srcId);
      && r == (if k == None then 1 else if t[k.value].kind != FILE then 2
               else if t[k.value].size > COPY_MAX then 3 else 0)
      && (r == 0 ==> size == t[k.value].size)
  {
    ghost var t := v.Img().table;
    TableReady(v);
    r, size := 1, 0;
    srcId := PathCalls.Resolve(v, s, src, cur, t);
    if srcId == NOT_FOUND || srcId == 0 { return; }
    var stat, e, sector, slot := FindEntryById(v, srcId, t);
    if stat != 0 { return; }
    if e.kind != FILE { r := 2; return; }
    if e.size > COPY_MAX { r := 3; return; }
    r, size := 0, e.size;
  }

  /** An unresolved destination is created; any other must be a file. */
  method CopyDestination(v: Volume, s: Scratch, dst: seq<byte>, dstId: u64, cur: u64, ghost m: Image) returns (r: int)
    requires Ready(v) && v.Img() == m && s.Idle() && Usable(m, dst, cur) && |LastName(dst)| <= 23
    requires dstId == IdOf(m.table, dst, cur)
    modifies v`lba, s`point, s`firstOne, s.rows, s.absRes
    ensures Ready(v) && s.Idle()
    ensures CopyTarget(m, dst, cur) == (v.Img(), r)
  {
    if dstId == NOT_FOUND {
      r := FsMkFile(v, s, dst, cur);
    } else {
      r := CheckDestination(v, dstId, m.table);
    }
  }

  method CheckDestination(v: Volume, dstId: u64, ghost t: seq<Entry>) returns (r: int)
    requires Ready(v) && v.Img().table == t && dstId != NOT_FOUND
    ensures r == if FileSlot(t, dstId) == None then 2 else 0
  {
    TableReady(v);
    var stat, d, sector, slot := FindEntryById(v, dstId, t);
    if dstId == 0 || stat != 0 || d.kind != FILE { r := 2; } else { r := 0; }
  }

  /** The kernel's buffers have room for both paths, also once the destination exists. */
  ghost predicate CopyUsable(m: Image, src: seq<byte>, dst: seq<byte>, cur: u64)
    requires ImageOk(m) && |LastName(dst)| <= 23
  {
    && Usable(m, src, cur) && Usable(m, dst, cur)
    && (var k := FileSlot(m.table, IdOf(m.table, src, cur));
        k.Some? && m.table[k.value].size <= COPY_MAX ==>
          Usable(CopyTarget(m, dst, cur).0, src, cur) && Usable(CopyTarget(m, dst, cur).0, dst, cur))
  }

  /** Creating the destination does not lengthen a path used from any directory but one whose id is only
      now given out. */
  lemma UsableAfter(m: Image, path: seq<byte>, dst: seq<byte>, cur: u64)
    requires ImageOk(m) && Usable(m, path, cur) && |LastName(dst)| <= 23
    requires IsAbsolute(path) || cur != NewId(m)
    ensures Usable(CopyTarget(m, dst, cur).0, path, cur)
  {
    if !IsAbsolute(path) && IdOf(m.table, dst, cur) == NOT_FOUND && MkFile(m, dst, cur).1 == 0 && SlotWith(m.table, 0).Some? {
      MkFileKeepsOk(m, dst, cur);
      Transfers.MkFileAdds(m, dst, cur, SlotWith(m.table, 0).value);
      MkKeepsPrintable(m, dst, cur);
    }
  }

  lemma MkKeepsPrintable(m: Image, dst: seq<byte>, cur: u64)
    requires ImageOk(m) && |LastName(dst)| <= 23 && cur != NewId(m)
    requires MkFile(m, dst, cur).1 == 0 && SlotWith(m.table, 0).Some?
    ensures IdsOk(MkFile(m, dst, cur).0.table)
    ensures Printable(m.table, cur) ==> Printable(MkFile(m, dst, cur).0.table, cur)
  {
    var e := FileEntry(m, dst, cur, FirstFit(m.store.bits, REGION).value);
    NewParentBound(m, dst, cur);
    LastIdBelow(m);
    NewEntryAddable(m.table, m.lastId, e);
    AddKeepsIds(m.table, e);
    Creation.PathAdded(m.table, e, cur);
    if cur > 0 {
      Creation.NamesAdded(m.table, e, cur);
    }
  }

  /** `fs_copy_file`: the source is read into a zero-filled buffer and written to the destination. */
  method FsCopyFile(v: Volume, s: Scratch, src: seq<byte>, dst: seq<byte>, cur: u64) returns (r: int)
    requires Ready(v) && s.Idle() && |LastName(dst)| <= 23 && CopyUsable(v.Img(), src, dst, cur)
    modifies v`lba, s`point, s`firstOne, s.rows, s.absRes
    ensures Ready(v) && s.Idle()
    ensures (v.Img(), r) == CopyFile(old(v.Img()), src, dst, cur)
  {
    hide IdsOk, CopyTarget, FileSystem.CopyBytes;
    var size, srcId;
    r, srcId, size := CopySource(v, s, src, cur);
    if r != 0 { return; }
    TableReady(v);
    var dstId := PathCalls.Resolve(v, s, dst, cur, v.Img().table);
    if dstId == srcId { return 0; }
    ghost var m := v.Img();
    r := CopyDestination(v, s, dst, dstId, cur, m);
    if r != 0 { return; }
    r := CopyBytes(v, s, src, dst, size, cur);
  }

  method ZeroBuffer(buf: array<byte>, n: nat)
    requires n <= buf.Length
    modifies buf
    ensures forall j :: 0 <= j < n ==> buf[j] == 0
  {
    for i := 0 to n
      invariant forall j :: 0 <= j < i ==> buf[j] == 0
    {
      buf[i] := 0;
    }
  }

  /** A read into a zeroed buffer leaves it zero filled. */
  lemma FilledZeros(now: seq<byte>, was: seq<byte>, bytes: Option<seq<byte>>, size: nat)
    requires size < |was| && (forall j :: 0 <= j <= size ==> was[j] == 0)
    requires bytes.Some? ==> |bytes.value| <= size && Filled(now, was, 0, bytes.value + [0])
    ensures bytes.Some? ==> |now| == |was| && now[..size] == ZeroFilled(bytes.value, size)
    ensures bytes.Some? && size == 0 ==> now[0] == 0
  {
  }

  lemma RoomForAny(len: nat, m: Image, path: seq<byte>, cur: u64, n: nat)
    requires ImageOk(m) && len > n
    ensures RoomFor(len, m, path, cur, n)
  {
  }

  /** Reading the source into a zeroed buffer. */
  method ReadSource(v: Volume, s: Scratch, src: seq<byte>, buf: array<byte>, size: nat, cur: u64) returns (r: int)
    requires Ready(v) && s.Idle() && Usable(v.Img(), src, cur) && size <= COPY_MAX
    requires buf.Length == COPY_MAX + 1 && buf != s.absRes && forall j :: 0 <= j <= size ==> buf[j] == 0
    modifies s`point, s`firstOne, s.rows, s.absRes, buf
    ensures s.Idle()
    ensures var bytes := ReadBytes(v.Img(), src, cur, size);
      && r == (if bytes == None then 1 else 0)
      && (bytes.Some? ==> buf[..size] == ZeroFilled(bytes.value, size) && (size == 0 ==> buf[0] == 0))
  {
    hide ImageOk, ReadBytes, Filled, ZeroFilled, Usable, RoomFor, ImageOf;
    ghost var was := buf[..];
    assert ReadLimit(size + 1) == size;
    RoomForAny(buf.Length, v.Img(), src, cur, size);
    r := FsReadFile(v, s, src, buf, size + 1, cur);
    FilledZeros(buf[..], was, ReadBytes(v.Img(), src, cur, size), size);
  }

  method CopyBytes(v: Volume, s: Scratch, src: seq<byte>, dst: seq<byte>, size: nat, cur: u64) returns (r: int)
    requires Ready(v) && s.Idle() && Usable(v.Img(), src, cur) && Usable(v.Img(), dst, cur) && size <= COPY_MAX
    modifies v`lba, s`point, s`firstOne, s.rows, s.absRes
    ensures Ready(v) && s.Idle()
    ensures (v.Img(), r) == FileSystem.CopyBytes(old(v.Img()), src, dst, size, cur)
  {
    hide Ready, Usable, ImageOk, WriteFile, ReadBytes, ZeroFilled;
    assert ImageOk(v.Img()) by { ReadyOk(v); }
    var buf := new byte[COPY_MAX + 1];
    ZeroBuffer(buf, size + 1);
    r := ReadSource(v, s, src, buf, size, cur);
    if r != 0 { return 1; }
    var data := buf[..size + 1];
    DataOfBuffer(data, size);
    assert data[..size] == buf[..size];
    r := FsWriteFile(v, s, dst, data, size, cur);
  }

  lemma ReadyOk(v: Volume)
    requires Ready(v)
    ensures v.Mounted() && ImageOk(v.Img())
  {
  }

  lemma DataOfBuffer(data: seq<byte>, size: u64)
    requires |data| == size + 1 && (size == 0 ==> data[0] == 0)
    ensures DataOf(data, size) == data[..size] && (size == 0 ==> 0 in data)
  {
  }
}
