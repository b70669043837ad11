/** When each call succeeds, and what it answers when it does not. */
module Outcomes {
  import opened Bytes
  import opened Regions
  import opened Entries
  import opened Disk
  import opened Table
  import opened Paths
  import opened Names
  import opened PathNames
  import opened FileSystem
  import Creation
  import Transfers

  // ---------------------------------------------------------------- creating

  /** What a creation at a path of words needs of the table: a directory that resolves and an id to give out. */
  predicate Creatable(m: Image, ws: Words) {
    Walk(m.table, ws, 0) != NOT_FOUND && m.lastId + 1 < NOT_FOUND
  }

  ghost predicate SomeRegionFree(st: Store) {
    exists r: nat :: InGrid(|st.bits|, REGION, r) && Free(st.bits, r, REGION)
  }

  lemma ParentAt(m: Image, ws: Words, w: seq<byte>, cur: u64)
    requires ImageOk(m) && AreWords(ws) && IsWord(w) && |PathFrom(ws + [w])| <= 1023
    ensures LastName(PathFrom(ws + [w])) == w
    ensures ParentOf(m.table, PathToAbs(m.table, PathFrom(ws + [w]), cur), cur) == Walk(m.table, ws, 0)
    ensures NewId(m) == m.lastId + 1
  {
    CanonicalParts(ws, w);
    CanonicalParent(m.table, ws, w, cur);
    LastIdBelow(m);
    assert PathFrom(ws + [w])[0] == SLASH;
  }

  /** The entry that a creation adds: named `w`, in directory `parent`, with the next id. */
  ghost predicate Added(m: Image, t: seq<Entry>, parent: u64, w: seq<byte>, kind: u16, size: u64, regions: u16,
                        frame: u64) {
    match SlotWith(m.table, 0)
    case None => t == m.table
    case Some(k) =>
      && |t| == |m.table| && t == m.table[k := t[k]]
      && NameOfEntry(t[k]) == w && t[k].parent == parent && t[k].id == m.lastId + 1
      && t[k].kind == kind && t[k].size == size && t[k].regionSize == regions && t[k].frame == frame
      && t[k].flags == 0
  }

  lemma EntryAdded(m: Image, e: Entry)
    requires ImageOk(m) && e.id == m.lastId + 1 && e.flags == 0
    ensures Added(m, AddEntry(m.table, e), e.parent, NameOfEntry(e), e.kind, e.size, e.regionSize, e.frame)
    ensures MaxId(AddEntry(m.table, e), TABLE_ENTRIES) == if SlotWith(m.table, 0).Some? then e.id else m.lastId
  {
    hide IdsOk, GridOk, EntriesOk, NameOfEntry;
    LastIdBelow(m);
    if SlotWith(m.table, 0).Some? {
      MaxIdIs(AddEntry(m.table, e), TABLE_ENTRIES);
      assert AddEntry(m.table, e)[SlotWith(m.table, 0).value].id == e.id;
    }
  }

  /** A directory is made exactly when its own directory resolves and an id is left, and then with the name and
      parent of its path; otherwise nothing changes. */
  lemma MkDirOutcome(m: Image, ws: Words, w: seq<byte>, cur: u64)
    requires ImageOk(m) && AreWords(ws) && IsWord(w) && 0 !in w && |w| <= 23 && |PathFrom(ws + [w])| <= 1023
    ensures LastName(PathFrom(ws + [w])) == w
    ensures var (m', r) := MkDir(m, PathFrom(ws + [w]), cur);
      && (r == 0 <==> Creatable(m, ws)) && (r != 0 ==> r == 1 && m' == m)
      && (r == 0 ==> Added(m, m'.table, Walk(m.table, ws, 0), w, 3, 4, 0, 0))
      && (r == 0 ==> m'.store == m.store && m'.lastId == m.lastId + if SlotWith(m.table, 0).Some? then 1 else 0)
  {
    ParentAt(m, ws, w, cur);
    hide PathToAbs, ParentOf, Walk, PathFrom, LastName, ImageOk, AreWords, Added, MkDir;
    MkDirAt(m, PathFrom(ws + [w]), w, cur);
  }

  lemma MkDirAt(m: Image, p: seq<byte>, w: seq<byte>, cur: u64)
    requires ImageOk(m) && LastName(p) == w && 0 !in w && |w| <= 23 && NewId(m) == m.lastId + 1
    ensures var ((m', r), parent) := (MkDir(m, p, cur), ParentOf(m.table, PathToAbs(m.table, p, cur), cur));
      && (r == 0 <==> parent != NOT_FOUND && m.lastId + 1 < NOT_FOUND) && (r != 0 ==> r == 1 && m' == m)
      && (r == 0 ==> Added(m, m'.table, parent, w, 3, 4, 0, 0))
      && (r == 0 ==> m'.store == m.store && m'.lastId == m.lastId + if SlotWith(m.table, 0).Some? then 1 else 0)
  {
    hide PathToAbs, ParentOf, LastName, IdsOk, GridOk, EntriesOk, NameField, MaxId, AddEntry, Added, SlotWith, CString;
    CStringOfName(w);
    EntryAdded(m, DirEntry(m, p, cur));
  }

  /** Region `f` is free and no lower one is. */
  ghost predicate LowestFree(st: Store, f: nat) {
    && InGrid(|st.bits|, REGION, f) && Free(st.bits, f, REGION)
    && forall r: nat :: InGrid(|st.bits|, REGION, r) && Free(st.bits, r, REGION) ==> f <= r
  }

  lemma FreeRegionFound(st: Store)
    requires GridOk(st, REGION)
    ensures FirstFit(st.bits, REGION).Some? <==> SomeRegionFree(st)
    ensures FirstFit(st.bits, REGION).Some? ==> LowestFree(st, FirstFit(st.bits, REGION).value)
  {
    FirstFitOnGrid(st.bits, REGION);
  }

  /** A file is made exactly when there is a free region as well; it gets the lowest. */
  lemma MkFileOutcome(m: Image, ws: Words, w: seq<byte>, cur: u64)
    requires ImageOk(m) && AreWords(ws) && IsWord(w) && 0 !in w && |w| <= 23 && |PathFrom(ws + [w])| <= 1023
    ensures LastName(PathFrom(ws + [w])) == w
    ensures var (m', r) := MkFile(m, PathFrom(ws + [w]), cur);
      && (r == 0 <==> Creatable(m, ws) && SomeRegionFree(m.store)) && (r != 0 ==> r == 1 && m' == m)
      && (r == 0 ==> exists f: u64 :: (&& LowestFree(m.store, f)
                                       && m'.store == m.store.(bits := Mark(m.store.bits, f, REGION, true))
                                       && Added(m, m'.table, Walk(m.table, ws, 0), w, 2, 0, 8, f)))
      && (r == 0 ==> m'.lastId == m.lastId + if SlotWith(m.table, 0).Some? then 1 else 0)
  {
    ParentAt(m, ws, w, cur);
    FreeRegionFound(m.store);
    hide PathToAbs, ParentOf, Walk, PathFrom, LastName, ImageOk, AreWords, Added, MkFile, FirstFit, LowestFree, SomeRegionFree;
    MkFileAt(m, PathFrom(ws + [w]), w, cur);
  }

  lemma MkFileAt(m: Image, p: seq<byte>, w: seq<byte>, cur: u64)
    requires ImageOk(m) && LastName(p) == w && 0 !in w && |w| <= 23 && NewId(m) == m.lastId + 1
    ensures var ((m', r), parent, f) :=
        (MkFile(m, p, cur), ParentOf(m.table, PathToAbs(m.table, p, cur), cur), FirstFit(m.store.bits, REGION));
      && (r == 0 <==> parent != NOT_FOUND && m.lastId + 1 < NOT_FOUND && f.Some?) && (r != 0 ==> r == 1 && m' == m)
      && (r == 0 ==> m'.store == m.store.(bits := Mark(m.store.bits, f.value, REGION, true)))
      && (r == 0 ==> f.value < U64 && Added(m, m'.table, parent, w, 2, 0, 8, f.value))
      && (r == 0 ==> m'.lastId == m.lastId + if SlotWith(m.table, 0).Some? then 1 else 0)
  {
    hide PathToAbs, ParentOf, LastName, IdsOk, Uniform, EntriesOk, NameField, MaxId, AddEntry, Added, SlotWith, CString, Mark;
    CStringOfName(w);
    var f := FirstFit(m.store.bits, REGION);
    if f.Some? { EntryAdded(m, FileEntry(m, p, cur, f.value)); }
  }

  // ---------------------------------------------------------------- writing and reading

  /** A write succeeds, and a read finds something, exactly when the path names a file; otherwise a write changes
      nothing and answers 1. */
  lemma WriteOutcome(m: Image, p: seq<byte>, data: seq<byte>, cur: u64, n: nat)
    requires ImageOk(m) && |data| < U64
    ensures var (m', r) := WriteFile(m, p, data, cur);
      && (r == 0 <==> exists k: nat :: Has(m.table, k, IdOf(m.table, p, cur)) && m.table[k].kind == FILE)
      && (r == 0 <==> ReadBytes(m, p, cur, n).Some?)
      && (r != 0 ==> r == 1 && m' == m)
  {
    HasSlot(m.table, IdOf(m.table, p, cur));
    hide IdOf, IdsOk, GridOk, EntriesOk, MaxId, SlotWith;
  }

  // ---------------------------------------------------------------- removing

  /** Slot `k` holds the live entry with this id. */
  predicate Has(t: seq<Entry>, k: nat, id: u64) {
    k < |t| && t[k].id == id && id != 0
  }

  /** A file removal succeeds exactly on the id of a file, answers 2 exactly on that of another entry, and 1
      otherwise; it then changes nothing, and on success erases that entry and no other. */
  lemma RmFileOutcome(m: Image, id: u64)
    requires ImageOk(m)
    ensures var (m', r) := RmFileById(m, id);
      && (r == 0 <==> exists k: nat :: Has(m.table, k, id) && m.table[k].kind == FILE)
      && (r == 2 <==> exists k: nat :: Has(m.table, k, id) && m.table[k].kind != FILE)
      && (r == 1 <==> forall k: nat :: !Has(m.table, k, id))
      && (r != 0 ==> m' == m)
      && (r == 0 ==> exists k: nat :: Has(m.table, k, id) && m'.table == m.table[k := FreeSlot()])
  {
    HasSlot(m.table, id);
    hide IdsOk, GridOk, EntriesOk, MaxId, SlotWith;
  }

  /** A directory removal succeeds exactly on the id of a directory with no children, answers 2 exactly on that of a
      file, and 1 otherwise; it then changes nothing, and on success erases that entry and nothing else. */
  lemma RmDirOutcome(m: Image, id: u64)
    requires ImageOk(m)
    ensures var (m', r) := RmDirById(m, id);
      && (r == 0 <==> exists k: nat :: Has(m.table, k, id) && m.table[k].kind == DIRECTORY && !HasChildren(m.table, id))
      && (r == 2 <==> exists k: nat :: Has(m.table, k, id) && m.table[k].kind != DIRECTORY)
      && (r == 0 || r == 1 || r == 2)
      && (r != 0 ==> m' == m)
      && (r == 0 ==> m'.store == m.store && exists k: nat :: Has(m.table, k, id) && m'.table == m.table[k := FreeSlot()])
  {
    HasSlot(m.table, id);
    hide IdsOk, GridOk, EntriesOk, MaxId, SlotWith;
  }

  lemma HasSlot(t: seq<Entry>, id: u64)
    requires IdsOk(t)
    ensures match SlotWith(t, id)
      case None => forall k: nat :: !Has(t, k, id)
      case Some(k) => id != 0 ==> Has(t, k, id) && id != NOT_FOUND && forall j: nat :: Has(t, j, id) ==> j == k
  {
  }

  // ---------------------------------------------------------------- copying

  /** A copy onto an existing entry: what it answers depends on the kinds of both and on the source's size. */
  lemma CopyOnto(m: Image, src: seq<byte>, dst: seq<byte>, cur: u64, ks: nat, kd: nat)
    requires ImageOk(m) && |LastName(dst)| <= 23 && ks != kd
    requires Has(m.table, ks, IdOf(m.table, src, cur)) && Has(m.table, kd, IdOf(m.table, dst, cur))
    ensures var (m', r) := CopyFile(m, src, dst, cur);
      && r == (if m.table[ks].kind != FILE then 2 else if m.table[ks].size > 8192 then 3
               else if m.table[kd].kind != FILE then 2 else 0)
      && (r != 0 ==> m' == m)
  {
    HasSlot(m.table, IdOf(m.table, src, cur));
    HasSlot(m.table, IdOf(m.table, dst, cur));
    hide IdOf, IdsOk, GridOk, EntriesOk, MaxId, SlotWith, MkFile;
  }

  /** A copy from a path that names nothing answers 1 and does nothing. */
  lemma CopyNothing(m: Image, src: seq<byte>, dst: seq<byte>, cur: u64)
    requires ImageOk(m) && |LastName(dst)| <= 23 && forall k: nat :: !Has(m.table, k, IdOf(m.table, src, cur))
    ensures CopyFile(m, src, dst, cur) == (m, 1)
  {
    HasSlot(m.table, IdOf(m.table, src, cur));
    hide IdOf, IdsOk, GridOk, EntriesOk, MaxId, SlotWith, MkFile;
  }

  /** A copy of a file onto itself answers 0 and does nothing. */
  lemma CopySame(m: Image, src: seq<byte>, dst: seq<byte>, cur: u64, k: nat)
    requires ImageOk(m) && |LastName(dst)| <= 23 && IdOf(m.table, dst, cur) == IdOf(m.table, src, cur)
    requires Has(m.table, k, IdOf(m.table, src, cur)) && m.table[k].kind == FILE && m.table[k].size <= 8192
    ensures CopyFile(m, src, dst, cur) == (m, 0)
  {
    HasSlot(m.table, IdOf(m.table, src, cur));
    hide IdOf, IdsOk, GridOk, EntriesOk, MaxId, SlotWith, MkFile;
  }

  /** A copy to a path that names nothing succeeds exactly when a file can be made there, there is a slot for it, and
      the path then names it. When no file can be made nothing changes; when it cannot be named afterwards, what the
      creation did stays. */
  lemma CopyToNew(m: Image, src: seq<byte>, dst: seq<byte>, cur: u64, ks: nat)
    requires ImageOk(m) && WellNamed(m.table) && 0 !in dst && 1 <= |LastName(dst)| <= 23 && Creation.FitsFrom(m.table, dst, cur)
    requires Has(m.table, ks, IdOf(m.table, src, cur)) && m.table[ks].kind == FILE && m.table[ks].size <= 8192
    requires IdOf(m.table, dst, cur) == NOT_FOUND && Creation.Avoids(src, cur, NewId(m))
    ensures var (m', r) := CopyFile(m, src, dst, cur);
      && (r == 0 <==> MkFile(m, dst, cur).1 == 0 && SlotWith(m.table, 0).Some? && Creation.MeansNew(dst, cur, NewId(m)))
      && (r != 0 ==> r == 1)
      && (MkFile(m, dst, cur).1 != 0 ==> m' == m)
      && (r != 0 && MkFile(m, dst, cur).1 == 0 ==> m' == MkFile(m, dst, cur).0)
  {
    hide IdOf, IdsOk, GridOk, EntriesOk, MaxId, SlotWith, MkFile, LastName, Creation.FitsFrom, WellNamed, Creation.MeansNew;
    HasSlot(m.table, IdOf(m.table, src, cur));
    if MkFile(m, dst, cur).1 == 0 {
      MkFileKeepsOk(m, dst, cur);
      Creation.MkFileResolves(m, dst, cur, src, cur);
      NewFileSlots(m, dst, cur, ks);
      CopyAfter(m, src, dst, cur, ks);
    }
  }

  /** After a creation the source is where it was, and a new file has the new id. */
  lemma NewFileSlots(m: Image, dst: seq<byte>, cur: u64, ks: nat)
    requires ImageOk(m) && |LastName(dst)| <= 23 && MkFile(m, dst, cur).1 == 0
    requires ks < TABLE_ENTRIES && FileSlot(m.table, m.table[ks].id) == Some(ks)
    ensures var m1 := MkFile(m, dst, cur).0;
      && ImageOk(m1) && FileSlot(m1.table, m.table[ks].id) == Some(ks) && m1.table[ks] == m.table[ks]
      && (SlotWith(m.table, 0).Some? ==> FileSlot(m1.table, NewId(m)).Some?)
  {
    Transfers.MkKeepsSlot(m, dst, cur, m.table[ks].id);
    MkFileKeepsOk(m, dst, cur);
    if SlotWith(m.table, 0).Some? {
      Transfers.MkFileAdds(m, dst, cur, SlotWith(m.table, 0).value);
    }
  }

  lemma CopyAfter(m: Image, src: seq<byte>, dst: seq<byte>, cur: u64, ks: nat)
    requires ImageOk(m) && |LastName(dst)| <= 23 && MkFile(m, dst, cur).1 == 0 && IdOf(m.table, dst, cur) == NOT_FOUND
    requires FileSlot(m.table, IdOf(m.table, src, cur)) == Some(ks) && m.table[ks].size <= 8192
    requires ImageOk(MkFile(m, dst, cur).0)
    requires FileSlot(MkFile(m, dst, cur).0.table, IdOf(MkFile(m, dst, cur).0.table, src, cur)) == Some(ks)
    ensures var ((m', r), m1) := (CopyFile(m, src, dst, cur), MkFile(m, dst, cur).0);
      if FileSlot(m1.table, IdOf(m1.table, dst, cur)).Some? then r == 0 else r == 1 && m' == m1
  {
    hide IdOf, IdsOk, GridOk, EntriesOk, MaxId, SlotWith, MkFile;
    var m1 := MkFile(m, dst, cur).0;
    assert SourceBytes(m1, src, cur, m.table[ks].size).Some?;
  }
}
