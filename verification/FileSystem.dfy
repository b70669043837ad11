/** The file system calls on values: what each one does to the bitmap, the table, the last id and
    the storage, and what every run of them keeps. */
module FileSystem {
  import opened Bytes
  import opened Regions
  import opened Entries
  import opened Disk
  import FileData
  import opened Table
  import opened Paths
  import opened Names
  import opened PathNames

  const REGION := 8   // data_file_region_size

  // ---------------------------------------------------------------- what every run keeps

  predicate IsFile(e: Entry) { e.id != 0 && e.kind == FILE }

  /** A file's first region is on the grid; nothing else has regions. */
  ghost predicate EntryOk(e: Entry, limit: nat) {
    && |NameOfEntry(e)| <= 23
    && (IsFile(e) ==> e.regionSize == REGION && InGrid(limit, REGION, e.frame) && e.size + 7 < U64)
  }

  ghost predicate EntriesOk(t: seq<Entry>, limit: nat) {
    forall k :: 0 <= k < |t| ==> EntryOk(t[k], limit)
  }

  /** The bitmap and the pointers are region-wise, ids are in order, the last id is their maximum, and every
      file starts on the grid. */
  ghost predicate ImageOk(m: Image) {
    && GridOk(m.store, REGION)
    && |m.table| == TABLE_ENTRIES && IdsOk(m.table)
    && m.lastId == MaxId(m.table, TABLE_ENTRIES)
    && EntriesOk(m.table, |m.store.bits|)
  }

  // ---------------------------------------------------------------- the calls

  /** `fs_mk_file` and `fs_mk_dir`: the new id, unless it would be 2^64-1. */
  function NewId(m: Image): u64 { Add64(m.lastId, 1) }

  function WithTable(m: Image, t: seq<Entry>): Image
    requires |t| == TABLE_ENTRIES
  {
    m.(table := t, lastId := MaxId(t, TABLE_ENTRIES))
  }

  function FileEntry(m: Image, p: seq<byte>, cur: u64, f: u64): Entry
    requires IdsOk(m.table) && |LastName(p)| <= 23
  {
    Entry(NameField(LastName(p)), 0, ParentOf(m.table, PathToAbs(m.table, p, cur), cur), NewId(m), FILE, REGION, 0, f)
  }

  function DirEntry(m: Image, p: seq<byte>, cur: u64): Entry
    requires IdsOk(m.table) && |LastName(p)| <= 23
  {
    Entry(NameField(LastName(p)), 4, ParentOf(m.table, PathToAbs(m.table, p, cur), cur), NewId(m), DIRECTORY, 0, 0, 0)
  }

  ghost function MkFile(m: Image, p: seq<byte>, cur: u64): (r: (Image, int))
    requires ImageOk(m) && |LastName(p)| <= 23
  {
    var parent := ParentOf(m.table, PathToAbs(m.table, p, cur), cur);
    if parent == NOT_FOUND || NewId(m) == NOT_FOUND then (m, 1)
    else
      match FirstFit(m.store.bits, REGION)
      case None => (m, 1)
      case Some(f) =>
        (WithTable(m.(store := m.store.(bits := Mark(m.store.bits, f, REGION, true))),
                   AddEntry(m.table, FileEntry(m, p, cur, f))), 0)
  }

  ghost function MkDir(m: Image, p: seq<byte>, cur: u64): (r: (Image, int))
    requires ImageOk(m) && |LastName(p)| <= 23
  {
    var parent := ParentOf(m.table, PathToAbs(m.table, p, cur), cur);
    if parent == NOT_FOUND || NewId(m) == NOT_FOUND then (m, 1)
    else (WithTable(m, AddEntry(m.table, DirEntry(m, p, cur))), 0)
  }

  /** The slot of the file that `id` names, as `fs_write_file` and `fs_read_file` look it up. */
  function FileSlot(t: seq<Entry>, id: u64): (k: Option<nat>)
    ensures k.Some? ==> k.value < |t| && t[k.value].id == id && IsFile(t[k.value])
  {
    if id == NOT_FOUND || id == 0 then None
    else
      match SlotWith(t, id)
      case None => None
      case Some(k) => if t[k].kind == FILE then Some(k) else None
  }

  ghost function WriteById(m: Image, id: u64, data: seq<byte>): (r: (Image, int))
    requires ImageOk(m) && |data| < U64
  {
    match FileSlot(m.table, id)
    case None => (m, 1)
    case Some(k) =>
      var t := FileData.WriteEntry(m.store, m.table[k], data);
      (m.(store := t.0, table := m.table[k := t.1]), 0)
  }

  ghost function WriteFile(m: Image, p: seq<byte>, data: seq<byte>, cur: u64): (r: (Image, int))
    requires ImageOk(m) && |data| < U64
  {
    WriteById(m, IdOf(m.table, p, cur), data)
  }

  /** The first `n` bytes of an entry's regions, or fewer if its size or chain is shorter. */
  ghost function Contents(m: Image, e: Entry, n: nat): (s: seq<byte>)
    requires GridOk(m.store, REGION) && IsFile(e) && EntryOk(e, |m.store.bits|)
    ensures |s| <= n && |s| <= e.size
  {
    ReadFrom(m.store, REGION, e.frame, Min(e.size, n))
  }

  /** The bytes a read of at most `n` bytes finds; none when the path names no file. */
  ghost function ReadBytes(m: Image, p: seq<byte>, cur: u64, n: nat): (b: Option<seq<byte>>)
    requires ImageOk(m)
    ensures b.Some? ==> |b.value| <= n
  {
    match FileSlot(m.table, IdOf(m.table, p, cur))
    case None => None
    case Some(k) => Some(Contents(m, m.table[k], n))
  }

  /** `fs_rm_file_by_id` */
  ghost function RmFileById(m: Image, id: u64): (r: (Image, int))
    requires ImageOk(m)
  {
    if id == 0 || id == NOT_FOUND then (m, 1)
    else
      match SlotWith(m.table, id)
      case None => (m, 1)
      case Some(k) =>
        if m.table[k].kind != FILE then (m, 2)
        else (WithTable(m.(store := FileData.FreeEntry(m.store, m.table[k])), m.table[k := FreeSlot()]), 0)
  }

  /** `fs_rm_dir_by_id` */
  ghost function RmDirById(m: Image, id: u64): (r: (Image, int))
    requires |m.table| == TABLE_ENTRIES
  {
    if id == 0 || id == NOT_FOUND then (m, 1)
    else
      match SlotWith(m.table, id)
      case None => (m, 1)
      case Some(k) =>
        if m.table[k].kind != DIRECTORY then (m, 2)
        else if HasChildren(m.table, id) then (m, 1)
        else (WithTable(m, m.table[k := FreeSlot()]), 0)
  }

  const COPY_MAX := 8192

  /** The copy buffer after the read: what was read, zero filled to the size asked for. */
  function ZeroFilled(bytes: seq<byte>, size: nat): (d: seq<byte>)
    requires |bytes| <= size
    ensures |d| == size
  {
    bytes + seq(size - |bytes|, i => 0)
  }

  /** The destination is prepared: an unresolved one is created, any other must be a file. */
  ghost function CopyTarget(m: Image, dst: seq<byte>, cur: u64): (r: (Image, int))
    requires ImageOk(m) && |LastName(dst)| <= 23
    ensures ImageOk(r.0)
  {
    var dstId := IdOf(m.table, dst, cur);
    if dstId == NOT_FOUND then
      MkFileKeepsOk(m, dst, cur);
      if MkFile(m, dst, cur).1 != 0 then (m, 1) else MkFile(m, dst, cur)
    else if FileSlot(m.table, dstId) == None then (m, 2)
    else (m, 0)
  }

  /** What reading the source for a copy of `size` bytes puts in the buffer. */
  ghost function SourceBytes(m: Image, src: seq<byte>, cur: u64, size: nat): (d: Option<seq<byte>>)
    requires ImageOk(m)
    ensures d.Some? ==> |d.value| == size
  {
    match ReadBytes(m, src, cur, size)
    case None => None
    case Some(b) => Some(ZeroFilled(b, size))
  }

  ghost function CopyBytes(m: Image, src: seq<byte>, dst: seq<byte>, size: nat, cur: u64): (r: (Image, int))
    requires ImageOk(m) && size <= COPY_MAX
  {
    match SourceBytes(m, src, cur, size)
    case None => (m, 1)
    case Some(d) => WriteFile(m, dst, d, cur)
  }

  /** `fs_copy_file`. Both paths are resolved again after the destination has been prepared. */
  ghost function CopyFile(m: Image, src: seq<byte>, dst: seq<byte>, cur: u64): (r: (Image, int))
    requires ImageOk(m) && |LastName(dst)| <= 23
  {
    var srcId := IdOf(m.table, src, cur);
    if srcId == NOT_FOUND || srcId == 0 || SlotWith(m.table, srcId) == None then (m, 1)
    else
      var e := m.table[SlotWith(m.table, srcId).value];
      if e.kind != FILE then (m, 2)
      else if e.size > COPY_MAX then (m, 3)
      else if IdOf(m.table, dst, cur) == srcId then (m, 0)
      else
        var (m1, c) := CopyTarget(m, dst, cur);
        if c != 0 then (m1, c) else CopyBytes(m1, src, dst, e.size, cur)
  }

  /** Mounting an existing volume recomputes the last id. */
  function Remount(m: Image): Image
    requires |m.table| == TABLE_ENTRIES
  {
    WithTable(m, m.table)
  }

  // ---------------------------------------------------------------- one call keeps the invariant

  lemma AbsoluteParent(t: seq<Entry>, p: seq<byte>, cur: u64)
    requires IdsOk(t)
    ensures var q := PathToAbs(t, p, cur); IsAbsolute(q) && ParentOf(t, q, cur) == ParentOf(t, q, 0)
  {
    var a := PathToAbs(t, p, cur);
    assert a[0] == SLASH;
    var q := StripSlashes(Truncated(a));
    assert q[0] == SLASH;
    var l := LastSlash(q);
    if l > 0 {
      assert q[..l][0] == SLASH;
      AbsoluteId(t, q[..l], cur);
    }
  }

  lemma AbsoluteId(t: seq<Entry>, p: seq<byte>, cur: u64)
    requires IsAbsolute(p)
    ensures PathToId(t, p, cur) == PathToId(t, p, 0)
  {
    assert p[0] != DOT;
  }

  lemma LastIdBelow(m: Image)
    requires ImageOk(m)
    ensures m.lastId < NOT_FOUND && forall k :: 0 <= k < TABLE_ENTRIES ==> m.table[k].id <= m.lastId
  {
    MaxIdIs(m.table, TABLE_ENTRIES);
    if m.lastId > 0 {
      var j :| 0 <= j < TABLE_ENTRIES && m.table[j].id == m.lastId;
    }
  }

  /** A new id is neither in use nor the parent of any entry, also of an orphan. */
  lemma NewIdUnreferenced(m: Image, k: nat)
    requires ImageOk(m) && NewId(m) != NOT_FOUND && k < TABLE_ENTRIES
    ensures m.table[k].id < NewId(m) && m.table[k].parent < NewId(m) && NewId(m) == m.lastId + 1
  {
    LastIdBelow(m);
    if m.table[k].id == 0 { assert m.table[k] == FreeSlot(); }
  }

  /** Whatever the current directory, a creation's parent id is at most the last id. */
  lemma NewParentBound(m: Image, p: seq<byte>, cur: u64)
    requires ImageOk(m)
    ensures var parent := ParentOf(m.table, PathToAbs(m.table, p, cur), cur);
      parent <= m.lastId || parent == NOT_FOUND
  {
    LastIdBelow(m);
    AbsoluteParent(m.table, p, cur);
    ParentBound(m.table, PathToAbs(m.table, p, cur), 0, m.lastId);
  }

  /** So a new entry's parent id is below its own id. */
  lemma NewEntryAddable(t: seq<Entry>, lastId: u64, e: Entry)
    requires IdsOk(t) && SlotWith(t, 0).Some? && lastId < NOT_FOUND
    requires forall k :: 0 <= k < |t| ==> t[k].id <= lastId
    requires e.parent <= lastId && e.id == Add64(lastId, 1) != NOT_FOUND
    ensures Addable(t, e) && e.id == lastId + 1
  {
  }

  lemma NameFits(s: seq<byte>)
    requires |s| <= 23
    ensures |CString(NameField(s))| <= 23
  {
    var n := NameField(s);
    assert n[23] == 0;
    assert |CString(n)| == 24 ==> CString(n) == n;
  }

  lemma AddEntriesOk(t: seq<Entry>, e: Entry, limit: nat)
    requires EntriesOk(t, limit) && EntryOk(e, limit)
    ensures EntriesOk(AddEntry(t, e), limit)
  {
  }

  /** Adding an entry keeps the table as every run has it. */
  lemma AddKeepsOk(m: Image, e: Entry, store: Store)
    requires ImageOk(m) && (SlotWith(m.table, 0).Some? ==> Addable(m.table, e))
    requires GridOk(store, REGION) && |store.bits| == |m.store.bits| && EntryOk(e, |store.bits|)
    ensures ImageOk(WithTable(m.(store := store), AddEntry(m.table, e)))
  {
    AddEntriesOk(m.table, e, |m.store.bits|);
    if SlotWith(m.table, 0).Some? {
      AddKeepsIds(m.table, e);
    }
  }

  lemma MkFileKeepsOk(m: Image, p: seq<byte>, cur: u64)
    requires ImageOk(m) && |LastName(p)| <= 23
    ensures ImageOk(MkFile(m, p, cur).0)
  {
    if MkFile(m, p, cur).1 == 0 {
      var f := FirstFit(m.store.bits, REGION).value;
      FirstFitOnGrid(m.store.bits, REGION);
      MarkKeepsGrid(m.store, REGION, f, true);
      var e := FileEntry(m, p, cur, f);
      NameFits(LastName(p));
      if SlotWith(m.table, 0).Some? {
        NewParentBound(m, p, cur);
        LastIdBelow(m);
        NewEntryAddable(m.table, m.lastId, e);
      }
      AddKeepsOk(m, e, m.store.(bits := Mark(m.store.bits, f, REGION, true)));
    }
  }

  lemma MkDirKeepsOk(m: Image, p: seq<byte>, cur: u64)
    requires ImageOk(m) && |LastName(p)| <= 23
    ensures ImageOk(MkDir(m, p, cur).0)
  {
    if MkDir(m, p, cur).1 == 0 {
      var e := DirEntry(m, p, cur);
      NameFits(LastName(p));
      if SlotWith(m.table, 0).Some? {
        NewParentBound(m, p, cur);
        LastIdBelow(m);
        NewEntryAddable(m.table, m.lastId, e);
      }
      AddKeepsOk(m, e, m.store);
    }
  }

  lemma {:induction false} SameMax(t: seq<Entry>, t': seq<Entry>, k: nat)
    requires k <= |t| == |t'| && forall j :: 0 <= j < k ==> t'[j].id == t[j].id
    ensures MaxId(t', k) == MaxId(t, k)
  {
    if k > 0 { SameMax(t, t', k - 1); }
  }

  /** Changing anything but an entry's id and parent. */
  lemma UpdateKeepsOk(m: Image, k: nat, e: Entry, store: Store)
    requires ImageOk(m) && k < TABLE_ENTRIES && m.table[k].id != 0
    requires e.id == m.table[k].id && e.parent == m.table[k].parent
    requires GridOk(store, REGION) && |store.bits| == |m.store.bits| && EntryOk(e, |store.bits|)
    ensures ImageOk(m.(store := store, table := m.table[k := e]))
  {
    SameMax(m.table, m.table[k := e], TABLE_ENTRIES);
  }

  /** Erasing an entry. */
  lemma EraseKeepsOk(m: Image, k: nat, store: Store)
    requires ImageOk(m) && k < TABLE_ENTRIES
    requires GridOk(store, REGION) && |store.bits| == |m.store.bits|
    ensures ImageOk(WithTable(m.(store := store), m.table[k := FreeSlot()]))
  {
    FreeNameEmpty(FreeSlot());
  }

  lemma WriteKeepsOk(m: Image, id: u64, data: seq<byte>)
    requires ImageOk(m) && |data| + 7 < U64
    ensures ImageOk(WriteById(m, id, data).0)
  {
    match FileSlot(m.table, id)
    case None =>
    case Some(k) =>
      var t := FileData.WriteEntry(m.store, m.table[k], data);
      UpdateKeepsOk(m, k, t.1, t.0);
  }

  lemma RmFileKeepsOk(m: Image, id: u64)
    requires ImageOk(m)
    ensures ImageOk(RmFileById(m, id).0)
  {
    if RmFileById(m, id).1 == 0 {
      var k := SlotWith(m.table, id).value;
      var e := m.table[k];
      FreeKeepsGrid(m.store, REGION, e.frame, FreeCount(e.size, REGION), m.store.bits);
      EraseKeepsOk(m, k, FileData.FreeEntry(m.store, e));
    }
  }

  lemma RmDirKeepsOk(m: Image, id: u64)
    requires ImageOk(m)
    ensures ImageOk(RmDirById(m, id).0)
  {
    if RmDirById(m, id).1 == 0 {
      EraseKeepsOk(m, SlotWith(m.table, id).value, m.store);
    }
  }

  lemma RemountChangesNothing(m: Image)
    requires ImageOk(m)
    ensures Remount(m) == m
  {
  }

  function CopySize(m: Image, src: seq<byte>, cur: u64): (n: nat)
    requires IdsOk(m.table)
    ensures n <= COPY_MAX
  {
    match FileSlot(m.table, IdOf(m.table, src, cur))
    case None => 0
    case Some(k) => if m.table[k].size <= COPY_MAX then m.table[k].size else 0
  }

  /** A copy is stopped before it changes anything, or after preparing the destination, or goes on to write. */
  lemma CopyParts(m: Image, src: seq<byte>, dst: seq<byte>, cur: u64)
    requires ImageOk(m) && |LastName(dst)| <= 23
    ensures var m1, m' := CopyTarget(m, dst, cur).0, CopyFile(m, src, dst, cur).0;
      m' == m || m' == m1 || m' == CopyBytes(m1, src, dst, CopySize(m, src, cur), cur).0
  {
    hide IdOf, GridOk, EntriesOk, CopyTarget, CopyBytes;
  }

  lemma CopyTargetParts(m: Image, dst: seq<byte>, cur: u64)
    requires ImageOk(m) && |LastName(dst)| <= 23
    ensures CopyTarget(m, dst, cur).0 == m || CopyTarget(m, dst, cur).0 == MkFile(m, dst, cur).0
  {
    hide IdOf, GridOk, EntriesOk, MkFile;
  }

  lemma CopyBytesParts(m: Image, src: seq<byte>, dst: seq<byte>, size: nat, cur: u64) returns (d: seq<byte>)
    requires ImageOk(m) && size <= COPY_MAX
    ensures |d| <= COPY_MAX
    ensures CopyBytes(m, src, dst, size, cur).0 == m
      || CopyBytes(m, src, dst, size, cur).0 == WriteById(m, IdOf(m.table, dst, cur), d).0
  {
    hide IdOf, GridOk, EntriesOk, WriteById;
    d := if SourceBytes(m, src, cur, size).Some? then SourceBytes(m, src, cur, size).value else [];
  }

  lemma CopyKeepsOk(m: Image, src: seq<byte>, dst: seq<byte>, cur: u64)
    requires ImageOk(m) && |LastName(dst)| <= 23
    ensures ImageOk(CopyFile(m, src, dst, cur).0)
  {
    CopyParts(m, src, dst, cur);
    var m1 := CopyTarget(m, dst, cur).0;
    var d := CopyBytesParts(m1, src, dst, CopySize(m, src, cur), cur);
    WriteKeepsOk(m1, IdOf(m1.table, dst, cur), d);
    hide CopyFile, CopyTarget, CopyBytes, WriteById, CopySize, IdOf, GridOk, EntriesOk;
  }

  // ---------------------------------------------------------------- runs

  datatype Call =
    | Mk(path: seq<byte>, cur: u64)
    | Mkdir(path: seq<byte>, cur: u64)
    | Write(path: seq<byte>, data: seq<byte>, cur: u64)
    | Rm(path: seq<byte>, cur: u64)
    | Rmdir(path: seq<byte>, cur: u64)
    | Copy(src: seq<byte>, dst: seq<byte>, cur: u64)
    | Mount

  /** Names of at most 23 bytes; data whose length is a 64-bit size. */
  predicate Legal(c: Call) {
    match c
    case Mk(p, _) => |LastName(p)| <= 23
    case Mkdir(p, _) => |LastName(p)| <= 23
    case Write(_, data, _) => |data| + 7 < U64
    case Copy(_, dst, _) => |LastName(dst)| <= 23
    case _ => true
  }

  ghost function Step(m: Image, c: Call): (m': Image)
    requires ImageOk(m) && Legal(c)
    ensures ImageOk(m')
  {
    match c
    case Mk(p, cur) =>
      MkFileKeepsOk(m, p, cur);
      MkFile(m, p, cur).0
    case Mkdir(p, cur) =>
      MkDirKeepsOk(m, p, cur);
      MkDir(m, p, cur).0
    case Write(p, data, cur) =>
      WriteKeepsOk(m, IdOf(m.table, p, cur), data);
      WriteFile(m, p, data, cur).0
    case Rm(p, cur) =>
      RmFileKeepsOk(m, PathToId(m.table, p, cur));
      RmFileById(m, PathToId(m.table, p, cur)).0
    case Rmdir(p, cur) =>
      RmDirKeepsOk(m, PathToId(m.table, p, cur));
      RmDirById(m, PathToId(m.table, p, cur)).0
    case Copy(src, dst, cur) =>
      CopyKeepsOk(m, src, dst, cur);
      CopyFile(m, src, dst, cur).0
    case Mount => Remount(m)
  }

  ghost function Run(m: Image, cs: seq<Call>): (m': Image)
    requires ImageOk(m) && forall c :: c in cs ==> Legal(c)
    ensures ImageOk(m')
    decreases |cs|
  {
    if cs == [] then m else Run(Step(m, cs[0]), cs[1..])
  }

  lemma {:induction false} RunOn(m: Image, cs: seq<Call>, more: seq<Call>)
    requires ImageOk(m) && forall c :: c in cs || c in more ==> Legal(c)
    ensures Run(m, cs + more) == Run(Run(m, cs), more)
    decreases |cs|
  {
    hide Step, Legal, ImageOk;
    if cs == [] {
      assert cs + more == more;
    } else {
      assert (cs + more)[0] == cs[0] && (cs + more)[1..] == cs[1..] + more;
      RunOn(Step(m, cs[0]), cs[1..], more);
    }
  }

  // ---------------------------------------------------------------- what no call touches

  /** The superblock, and how many sectors and bits there are. */
  ghost predicate SameShape(m: Image, m': Image) {
    && m'.superblock == m.superblock
    && |m'.store.sectors| == |m.store.sectors| && |m'.store.bits| == |m.store.bits|
  }

  lemma MkKeepsShape(m: Image, p: seq<byte>, cur: u64)
    requires ImageOk(m) && |LastName(p)| <= 23
    ensures SameShape(m, MkFile(m, p, cur).0)
  {
    hide GridOk, IdsOk, EntriesOk, ParentOf;
  }

  lemma WriteKeepsShape(m: Image, id: u64, data: seq<byte>)
    requires ImageOk(m) && |data| < U64
    ensures SameShape(m, WriteById(m, id, data).0)
  {
    hide IdsOk, EntriesOk;
  }

  lemma MkDirKeepsShape(m: Image, p: seq<byte>, cur: u64)
    requires ImageOk(m) && |LastName(p)| <= 23
    ensures SameShape(m, MkDir(m, p, cur).0)
  {
    hide GridOk, IdsOk, EntriesOk, ParentOf;
  }

  lemma RmKeepsShape(m: Image, id: u64)
    requires ImageOk(m)
    ensures SameShape(m, RmFileById(m, id).0) && SameShape(m, RmDirById(m, id).0)
  {
    hide IdsOk, HasChildren, MaxId;
  }

  lemma CopyKeepsShape(m: Image, src: seq<byte>, dst: seq<byte>, cur: u64)
    requires ImageOk(m) && |LastName(dst)| <= 23
    ensures SameShape(m, CopyFile(m, src, dst, cur).0)
  {
    CopyParts(m, src, dst, cur);
    CopyTargetParts(m, dst, cur);
    MkKeepsShape(m, dst, cur);
    var m1 := CopyTarget(m, dst, cur).0;
    var d := CopyBytesParts(m1, src, dst, CopySize(m, src, cur), cur);
    WriteKeepsShape(m1, IdOf(m1.table, dst, cur), d);
    hide CopyFile, CopyTarget, CopyBytes, CopySize, IdOf, MkFile, WriteById, GridOk, IdsOk, EntriesOk;
  }

  lemma StepKeepsShape(m: Image, c: Call)
    requires ImageOk(m) && Legal(c)
    ensures SameShape(m, Step(m, c))
  {
    hide MkFile, MkDir, WriteById, RmFileById, RmDirById, CopyFile;
    match c
    case Mk(p, cur) => MkKeepsShape(m, p, cur);
    case Mkdir(p, cur) => MkDirKeepsShape(m, p, cur);
    case Write(p, data, cur) => WriteKeepsShape(m, IdOf(m.table, p, cur), data);
    case Rm(p, cur) => RmKeepsShape(m, PathToId(m.table, p, cur));
    case Rmdir(p, cur) => RmKeepsShape(m, PathToId(m.table, p, cur));
    case Copy(src, dst, cur) => CopyKeepsShape(m, src, dst, cur);
    case Mount =>
  }

  lemma {:induction false} RunKeepsShape(m: Image, cs: seq<Call>)
    requires ImageOk(m) && forall c :: c in cs ==> Legal(c)
    ensures SameShape(m, Run(m, cs))
    decreases |cs|
  {
    if cs != [] {
      StepKeepsShape(m, cs[0]);
      RunKeepsShape(Step(m, cs[0]), cs[1..]);
    }
  }
}
