/** Whole-call theorems about file contents: round trips, conservation and copying. */
module Transfers {
  import opened Bytes
  import opened Regions
  import opened Chains
  import opened Entries
  import opened Disk
  import opened Table
  import opened Paths
  import opened Names
  import opened PathNames
  import opened FileSystem
  import opened Separation
  import opened Creation

  // ---------------------------------------------------------------- round trip

  /** The file's chain holds as many bytes as its entry says. */
  ghost predicate Complete(m: Image, cs: seq<seq<nat>>, k: nat)
    requires k < |m.table| && k < |cs|
  {
    m.table[k].size <= Room(REGION, |cs[k]|)
  }

  /** After a write, a read of at most `n` bytes returns the data up to the size recorded in the
      entry. That size is the whole of the data, or a whole number of regions when none was left.
      The one exception: a write that has to extend the chain while region 0 is free reads back only
      as far as the old chain reached. */
  lemma WriteThenRead(m: Image, cs: seq<seq<nat>>, k: nat, data: seq<byte>, n: nat)
    requires SepOk(m, cs) && k < TABLE_ENTRIES && IsFile(m.table[k]) && |data| + 7 < U64
    ensures var m' := WriteById(m, m.table[k].id, data).0;
      var e' := m'.table[k];
      && ImageOk(m') && WriteById(m, m.table[k].id, data).1 == 0 && IsFile(e')
      && e'.size <= |data|
      && (e'.size < |data| ==> FirstFit(m'.store.bits, REGION) == None
                               && exists regions :: e'.size == Room(REGION, regions))
      && Contents(m', e', n)
         == data[..if m.store.bits[0] || |data| <= Room(REGION, |cs[k]|) then Min(e'.size, n)
                   else Min(Min(e'.size, n), Room(REGION, |cs[k]|))]
  {
    hide WriteFrom, ReadFrom, MaxId, FirstFit;
    var e := m.table[k];
    SlotIs(m.table, k);
    WriteKeepsOk(m, e.id, data);
    var w := WriteFrom(m.store, REGION, e.frame, data);
    if w.size < |data| {
      WriteRunsOut(m.store, REGION, e.frame, data);
    }
    RoundTrip(m.store, REGION, cs[k], data, Min(w.size, n));
  }

  /** With region 0 free, a write that stays within the old chain stores everything. */
  lemma StoresAll(st: Store, n: nat, ch: seq<nat>, data: seq<byte>)
    requires Sound(st, n, ch) && !st.bits[0] && |WriteFrom(st, n, ch[0], data).visited| <= |ch|
    ensures WriteFrom(st, n, ch[0], data).size == |data|
  {
    var w := WriteFrom(st, n, ch[0], data);
    assert !w.store.bits[0] by {
      LinkedInGrid(st, n, ch);
      WriteTouches(st, n, ch[0], data);
      WriteVisits(st, n, ch, data);
      ZeroStaysFree(st, w.store, n, ch, w.visited);
    }
    FirstRegionFree(w.store, n);
    WriteSize(st, n, ch[0], data);
    if w.size < |data| {
      WriteRunsOut(st, n, ch[0], data);
    }
  }

  /** So a write that needs more than the old chain always gets more. */
  lemma GrowsPast(st: Store, n: nat, ch: seq<nat>, data: seq<byte>, w: Written)
    requires Sound(st, n, ch) && !st.bits[0] && |data| > Room(n, |ch|)
    requires w == WriteFrom(st, n, ch[0], data)
    ensures w.size > Room(n, |ch|)
  {
    if |w.visited| <= |ch| {
      StoresAll(st, n, ch, data);
    } else {
      WriteGrew(st, n, ch[0], data, |ch|);
    }
  }

  lemma WriteGrew(st: Store, n: nat, r: nat, data: seq<byte>, c: nat)
    requires GridOk(st, n) && InGrid(|st.bits|, n, r) && 0 < c < |WriteFrom(st, n, r, data).visited|
    ensures Room(n, c) < WriteFrom(st, n, r, data).size
  {
    hide WriteFrom, Room, Uniform;
    WriteSize(st, n, r, data);
    RoomGrows(n, c, |WriteFrom(st, n, r, data).visited| - 1);
  }

  lemma ZeroStaysFree(st: Store, st': Store, n: nat, ch: seq<nat>, vis: seq<nat>)
    requires n > 0 && Touches(st, st', n, vis) && Visits(st.bits, ch, st'.bits, vis) && Taken(st.bits, ch)
    requires |vis| <= |ch| && st.bits != [] && !st.bits[0]
    ensures !st'.bits[0]
  {
    GroupOf(0, n, 0);
    assert 0 !in ch;
  }

  /** Everything recorded can be read back exactly when the old chain was long enough or region 0
      was taken before the write. */
  lemma WriteReadsBack(m: Image, cs: seq<seq<nat>>, k: nat, data: seq<byte>)
    requires SepOk(m, cs) && k < TABLE_ENTRIES && IsFile(m.table[k]) && |data| + 7 < U64
    ensures var m' := WriteById(m, m.table[k].id, data).0;
      ImageOk(m') && IsFile(m'.table[k])
      && (Contents(m', m'.table[k], |data|) == data[..Min(|data|, m'.table[k].size)]
          <==> m.store.bits[0] || |data| <= Room(REGION, |cs[k]|))
  {
    WriteThenRead(m, cs, k, data, |data|);
    if !m.store.bits[0] && |data| > Room(REGION, |cs[k]|) {
      SlotIs(m.table, k);
      GrowsPast(m.store, REGION, cs[k], data, WriteFrom(m.store, REGION, cs[k][0], data));
      RoundTrip(m.store, REGION, cs[k], data, 0);
    }
  }

  // ---------------------------------------------------------------- conservation

  lemma AddedFile(t: seq<Entry>, e: Entry, k: nat)
    requires Addable(t, e) && e.kind == FILE && SlotWith(t, 0) == Some(k)
    ensures FileSlot(AddEntry(t, e), e.id) == Some(k)
  {
    FirstWith(AddEntry(t, e), e.id, k);
  }

  /** What a successful creation does when there is a free slot. */
  lemma MkFileAdds(m: Image, p: seq<byte>, cur: u64, k: nat)
    requires ImageOk(m) && SlotWith(m.table, 0) == Some(k) && |LastName(p)| <= 23
    requires MkFile(m, p, cur).1 == 0
    ensures var m1, f := MkFile(m, p, cur).0, FirstFit(m.store.bits, REGION);
      && ImageOk(m1) && f.Some? && InGrid(|m.store.bits|, REGION, f.value)
      && m1.store == m.store.(bits := Mark(m.store.bits, f.value, REGION, true))
      && m1.table == m.table[k := FileEntry(m, p, cur, f.value)]
      && FileSlot(m1.table, NewId(m)) == Some(k)
  {
    MkFileKeepsOk(m, p, cur);
    FirstFitOnGrid(m.store.bits, REGION);
    var e := FileEntry(m, p, cur, FirstFit(m.store.bits, REGION).value);
    NewParentBound(m, p, cur);
    LastIdBelow(m);
    NewEntryAddable(m.table, m.lastId, e);
    AddedFile(m.table, e, k);
  }

  /** Creating a file, writing to it once and removing it gives back the bitmap, the table and the
      last id exactly, also when the write ran out of regions, and also when the file gets region 0. */
  lemma Conservation(m: Image, p: seq<byte>, cur: u64, data: seq<byte>)
    requires ImageOk(m) && FreeEnds(m.store, REGION)
    requires SlotWith(m.table, 0).Some? && |LastName(p)| <= 23 && |data| + 7 < U64
    requires MkFile(m, p, cur).1 == 0
    ensures var (m1, id) := (MkFile(m, p, cur).0, NewId(m));
      ImageOk(m1)
      && var (m2, c2) := WriteById(m1, id, data);
         ImageOk(m2) && c2 == 0
         && var (m3, c3) := RmFileById(m2, id);
            c3 == 0 && m3.store.bits == m.store.bits && m3.table == m.table && m3.lastId == m.lastId
  {
    var id, k := NewId(m), SlotWith(m.table, 0).value;
    MkFileAdds(m, p, cur, k);
    var m1 := MkFile(m, p, cur).0;
    WriteKeepsOk(m1, id, data);
    var m2 := WriteById(m1, id, data).0;
    FirstWith(m2.table, id, k);
    if !m.store.bits[0] { FirstRegionFree(m.store, REGION); }
    TakeWriteFree(m.store, REGION, FirstFit(m.store.bits, REGION).value, data);
    assert m2.table[k := FreeSlot()] == m.table;
  }

  // ---------------------------------------------------------------- copying

  /** The bytes that can be read from a sound chain: all that its regions hold. */
  lemma {:induction false} ReadLength(st: Store, n: nat, ch: seq<nat>, m: nat)
    requires GridOk(st, n) && Linked(st, n, ch)
    ensures |ReadFrom(st, n, ch[0], m)| == Min(m, Room(n, |ch|))
    decreases |ch|
  {
    assert Room(n, |ch|) == Capacity(n) + Room(n, |ch| - 1);
    if |ch| > 1 && m > Capacity(n) {
      ReadLength(st, n, ch[1..], m - Capacity(n));
    }
  }

  /** A copy that goes through: both paths resolve, to two different files, once the destination exists. */
  ghost predicate Copies(m: Image, src: seq<byte>, dst: seq<byte>, cur: u64)
    requires ImageOk(m) && |LastName(dst)| <= 23
  {
    var srcId, dstId := IdOf(m.table, src, cur), IdOf(m.table, dst, cur);
    var (m1, c) := CopyTarget(m, dst, cur);
    srcId != dstId && FileSlot(m.table, srcId).Some? && c == 0 && FileSlot(m1.table, IdOf(m1.table, dst, cur)).Some?
  }

  lemma CopyNeedsSlot(m: Image, src: seq<byte>, dst: seq<byte>, cur: u64)
    requires ImageOk(m) && |LastName(dst)| <= 23 && IdOf(m.table, dst, cur) == NOT_FOUND
    ensures Copies(m, src, dst, cur) ==> SlotWith(m.table, 0).Some? && MkFile(m, dst, cur).1 == 0
  {
  }

  /** A creation leaves every file in its slot. */
  lemma MkKeepsSlot(m: Image, p: seq<byte>, cur: u64, id: u64)
    requires ImageOk(m) && |LastName(p)| <= 23 && FileSlot(m.table, id).Some?
    ensures var m1 := MkFile(m, p, cur).0;
      && FileSlot(m1.table, id) == FileSlot(m.table, id)
      && m1.table[FileSlot(m.table, id).value] == m.table[FileSlot(m.table, id).value]
  {
    hide GridOk, EntriesOk, PathToAbs, ParentOf, MaxId, NameField, LastName, IdsOk, FirstFit, Mark;
    var m1, k := MkFile(m, p, cur).0, FileSlot(m.table, id).value;
    LastIdBelow(m);
    FirstWith(m1.table, id, k);
  }

  /** Creating the destination leaves the source resolving to the same file. */
  lemma CopyCreates(m: Image, cs: seq<seq<nat>>, src: seq<byte>, dst: seq<byte>, cur: u64) returns (cs1: seq<seq<nat>>)
    requires SepOk(m, cs) && WellNamed(m.table) && Avoids(src, cur, NewId(m))
    requires 0 !in dst && 1 <= |LastName(dst)| <= 23 && FitsFrom(m.table, dst, cur)
    requires Copies(m, src, dst, cur) && IdOf(m.table, dst, cur) == NOT_FOUND
    ensures var m1, id := MkFile(m, dst, cur).0, IdOf(m.table, src, cur);
      && SepOk(m1, cs1) && IdOf(m1.table, src, cur) == id != IdOf(m1.table, dst, cur)
      && FileSlot(m1.table, id) == FileSlot(m.table, id)
      && m1.table[FileSlot(m.table, id).value] == m.table[FileSlot(m.table, id).value]
  {
    cs1 := MkFileSeparated(m, cs, dst, cur);
    MkFileResolves(m, dst, cur, src, cur);
    CopyNeedsSlot(m, src, dst, cur);
    MkKeepsSlot(m, dst, cur, IdOf(m.table, src, cur));
    LastIdBelow(m);
  }

  /** A file made while region 0 is free gets it, so afterwards region 0 is taken. */
  lemma MkTakesZero(m: Image, p: seq<byte>, cur: u64)
    requires ImageOk(m) && |LastName(p)| <= 23 && MkFile(m, p, cur).1 == 0
    ensures var bits := MkFile(m, p, cur).0.store.bits; bits != [] && bits[0]
  {
    if !m.store.bits[0] { FirstRegionFree(m.store, REGION); }
  }

  lemma MkKeepsContents(m: Image, cs: seq<seq<nat>>, p: seq<byte>, cur: u64, k: nat, n: nat)
    requires SepOk(m, cs) && |LastName(p)| <= 23 && k < TABLE_ENTRIES && IsFile(m.table[k])
    ensures var m1 := MkFile(m, p, cur).0;
      ImageOk(m1) && Contents(m1, m.table[k], n) == Contents(m, m.table[k], n)
  {
    MkFileKeepsOk(m, p, cur);
    SameChain(m.store, MkFile(m, p, cur).0.store, REGION, cs[k], Min(m.table[k].size, n));
  }

  /** The state a copy reads in: what was in the source still is. A new destination has taken region 0 if
      nothing had. */
  lemma CopyPrepared(m: Image, cs: seq<seq<nat>>, src: seq<byte>, dst: seq<byte>, cur: u64) returns (cs1: seq<seq<nat>>)
    requires SepOk(m, cs) && WellNamed(m.table)
    requires 0 !in dst && 1 <= |LastName(dst)| <= 23 && FitsFrom(m.table, dst, cur)
    requires Copies(m, src, dst, cur)
    requires IdOf(m.table, dst, cur) == NOT_FOUND ==> Avoids(src, cur, NewId(m))
    ensures var srcId := IdOf(m.table, src, cur);
      var m1, k := CopyTarget(m, dst, cur).0, FileSlot(m.table, srcId).value;
      && SepOk(m1, cs1) && m1.store.bits != []
      && (if IdOf(m.table, dst, cur) == NOT_FOUND then m1.store.bits[0] else m1 == m && cs1 == cs)
      && IdOf(m1.table, src, cur) == srcId != IdOf(m1.table, dst, cur)
      && FileSlot(m1.table, srcId) == Some(k) && m1.table[k] == m.table[k]
      && forall n: nat :: Contents(m1, m.table[k], n) == Contents(m, m.table[k], n)
  {
    cs1 := cs;
    var k := FileSlot(m.table, IdOf(m.table, src, cur)).value;
    assert EntryOk(m.table[k], |m.store.bits|);
    if IdOf(m.table, dst, cur) == NOT_FOUND {
      cs1 := CopyCreates(m, cs, src, dst, cur);
      MkTakesZero(m, dst, cur);
      forall n: nat
        ensures Contents(MkFile(m, dst, cur).0, m.table[k], n) == Contents(m, m.table[k], n)
      {
        MkKeepsContents(m, cs, dst, cur, k, n);
      }
    }
  }

  /** What a copy of `data` from slot `ks` to slot `kd` leaves; `whole` says that all the size recorded can
      be read back. */
  ghost predicate Copied(m: Image, ks: nat, m': Image, kd: nat, data: seq<byte>, n: nat, whole: bool) {
    && ImageOk(m) && ImageOk(m') && ks < TABLE_ENTRIES && kd < TABLE_ENTRIES && ks != kd
    && IsFile(m.table[ks]) && m'.table[ks] == m.table[ks] && IsFile(m'.table[kd])
    && Contents(m', m.table[ks], n) == Contents(m, m.table[ks], n)
    && m'.table[kd].size <= |data|
    && (m'.table[kd].size < |data| ==>
          FirstFit(m'.store.bits, REGION) == None && exists r :: m'.table[kd].size == Room(REGION, r))
    && (whole ==> Contents(m', m'.table[kd], n) == data[..Min(m'.table[kd].size, n)])
    && (whole <==> Contents(m', m'.table[kd], |data|) == data[..m'.table[kd].size])
  }

  lemma CopyWrites(m1: Image, cs1: seq<seq<nat>>, ks: nat, kd: nat, data: seq<byte>, n: nat)
    requires SepOk(m1, cs1) && m1.store.bits != [] && |data| + 7 < U64
    requires ks < TABLE_ENTRIES && kd < TABLE_ENTRIES && ks != kd && IsFile(m1.table[ks]) && IsFile(m1.table[kd])
    ensures Copied(m1, ks, WriteById(m1, m1.table[kd].id, data).0, kd, data, n,
                   m1.store.bits[0] || |data| <= Room(REGION, |cs1[kd]|))
  {
    SlotIs(m1.table, kd);
    WriteKeepsOtherFiles(m1, cs1, m1.table[kd].id, data, ks, n);
    WriteThenRead(m1, cs1, kd, data, n);
    WriteReadsBack(m1, cs1, kd, data);
  }

  /** After the write the destination's path still names its slot. */
  lemma WriteKeepsPath(m: Image, p: seq<byte>, cur: u64, data: seq<byte>)
    requires ImageOk(m) && |data| + 7 < U64 && FileSlot(m.table, IdOf(m.table, p, cur)).Some?
    ensures var m' := WriteFile(m, p, data, cur).0;
      && IdsOk(m'.table) && IdOf(m'.table, p, cur) == IdOf(m.table, p, cur)
      && FileSlot(m'.table, IdOf(m'.table, p, cur)) == FileSlot(m.table, IdOf(m.table, p, cur))
  {
    var m', id := WriteFile(m, p, data, cur).0, IdOf(m.table, p, cur);
    WriteKeepsOk(m, id, data);
    SameId(m.table, m'.table, p, cur);
    FirstWith(m'.table, id, FileSlot(m.table, id).value);
  }

  /** The slots that a copy reads and writes. */
  ghost predicate Slots(m: Image, m': Image, src: seq<byte>, dst: seq<byte>, cur: u64, ks: nat, kd: nat) {
    && ImageOk(m) && ImageOk(m') && FileSlot(m.table, IdOf(m.table, src, cur)) == Some(ks)
    && FileSlot(m'.table, IdOf(m'.table, dst, cur)) == Some(kd)
  }

  /** What the copy buffer holds: the source's bytes. */
  ghost function CopyData(m: Image, ks: nat): seq<byte>
    requires ImageOk(m) && ks < TABLE_ENTRIES && IsFile(m.table[ks])
  {
    ZeroFilled(Contents(m, m.table[ks], m.table[ks].size), m.table[ks].size)
  }

  lemma CopyDataIs(m: Image, cs: seq<seq<nat>>, ks: nat)
    requires SepOk(m, cs) && ks < TABLE_ENTRIES && IsFile(m.table[ks])
    ensures Complete(m, cs, ks) ==> CopyData(m, ks) == Contents(m, m.table[ks], m.table[ks].size)
  {
    ReadLength(m.store, REGION, cs[ks], m.table[ks].size);
  }

  /** The copy is a write of the source's bytes into the prepared state. */
  lemma CopyIsWrite(m: Image, src: seq<byte>, dst: seq<byte>, cur: u64, ks: nat)
    requires ImageOk(m) && |LastName(dst)| <= 23 && FileSlot(m.table, IdOf(m.table, src, cur)) == Some(ks)
    requires CopyFile(m, src, dst, cur).1 == 0 && IdOf(m.table, dst, cur) != IdOf(m.table, src, cur)
    requires var m1 := CopyTarget(m, dst, cur).0;
      && FileSlot(m1.table, IdOf(m1.table, src, cur)) == Some(ks) && m1.table[ks] == m.table[ks]
      && Contents(m1, m.table[ks], m.table[ks].size) == Contents(m, m.table[ks], m.table[ks].size)
    ensures |CopyData(m, ks)| <= COPY_MAX
    ensures CopyFile(m, src, dst, cur) == WriteFile(CopyTarget(m, dst, cur).0, dst, CopyData(m, ks), cur)
  {
  }

  lemma CopyGoesThrough(m: Image, src: seq<byte>, dst: seq<byte>, cur: u64)
    requires ImageOk(m) && |LastName(dst)| <= 23
    requires CopyFile(m, src, dst, cur).1 == 0 && IdOf(m.table, dst, cur) != IdOf(m.table, src, cur)
    ensures Copies(m, src, dst, cur)
  {
  }

  /** The new destination's path leaves room for a relative one behind it. */
  predicate LeavesRoom(t: seq<Entry>, dst: seq<byte>, cur: u64)
    requires IdsOk(t)
  {
    |Join(Split(PathToAbs(t, dst, cur)))| <= 1020
  }

  /** A relative source path used from the id that the destination gets no longer finds the source: it finds
      nothing, or the destination when that has one of the longest paths there are. */
  lemma StaleSource(m: Image, src: seq<byte>, dst: seq<byte>, cur: u64)
    requires ImageOk(m) && WellNamed(m.table)
    requires 0 !in dst && 1 <= |LastName(dst)| <= 23 && FitsFrom(m.table, dst, cur)
    requires SlotWith(m.table, 0).Some? && MkFile(m, dst, cur).1 == 0
    requires IdOf(m.table, dst, cur) == NOT_FOUND && src != [] && !Avoids(src, cur, NewId(m))
    ensures IdsOk(MkFile(m, dst, cur).0.table)
    ensures IdOf(MkFile(m, dst, cur).0.table, src, cur) == if LeavesRoom(m.table, dst, cur) then NOT_FOUND else NewId(m)
  {
    var a, e := PathToAbs(m.table, dst, cur), FileEntry(m, dst, cur, FirstFit(m.store.bits, REGION).value);
    MkFileFresh(m, dst, cur, e);
    AbsLastName(m.table, dst, cur);
    hide IdOf, PathToAbs, ParentOf, Split, Join, GridOk, LastName;
    FromNewId(m.table, e, a, cur, src);
  }

  lemma EmptyIsRoot(t: seq<Entry>, cur: u64)
    requires IdsOk(t) && PathOf(t, cur) == [SLASH]
    ensures IdOf(t, [], cur) == 0
  {
    assert [SLASH] + [] == [SLASH] && PathToAbs(t, [], cur) == [SLASH];
    assert [SLASH][1..] == [] && Split([SLASH]) == Split([]) == [];
    assert IsAbsolute([SLASH]) && Truncated([SLASH]) == [SLASH];
  }

  lemma CopyNeedsSource(m: Image, src: seq<byte>, dst: seq<byte>, cur: u64)
    requires ImageOk(m) && |LastName(dst)| <= 23 && IdOf(m.table, dst, cur) == NOT_FOUND
    requires CopyFile(m, src, dst, cur).1 == 0 && IdOf(m.table, src, cur) != NOT_FOUND
    ensures ImageOk(MkFile(m, dst, cur).0)
    ensures IdOf(MkFile(m, dst, cur).0.table, src, cur) != NOT_FOUND
  {
    MkFileKeepsOk(m, dst, cur);
    hide IdOf, GridOk, EntriesOk, IdsOk, WriteById, MkFile;
    var m1 := CopyTarget(m, dst, cur).0;
    assert m1 == MkFile(m, dst, cur).0;
    var k := SlotWith(m.table, IdOf(m.table, src, cur)).value;
    assert SourceBytes(m1, src, cur, m.table[k].size).Some?;
  }

  /** So a copy that succeeds has used a source path that still means the source. */
  lemma SourceAvoids(m: Image, src: seq<byte>, dst: seq<byte>, cur: u64)
    requires ImageOk(m) && WellNamed(m.table)
    requires 0 !in dst && 1 <= |LastName(dst)| <= 23 && FitsFrom(m.table, dst, cur)
    requires Copies(m, src, dst, cur) && CopyFile(m, src, dst, cur).1 == 0
    requires IdOf(m.table, dst, cur) == NOT_FOUND && LeavesRoom(m.table, dst, cur)
    ensures Avoids(src, cur, NewId(m))
  {
    CopyNeedsSlot(m, src, dst, cur);
    CopyNeedsSource(m, src, dst, cur);
    LastIdBelow(m);
    if cur == NewId(m) {
      NoEntryPath(m.table, cur);
      EmptyIsRoot(m.table, cur);
      hide CopyFile, MkFile, IdOf, LeavesRoom, GridOk;
      if src != [] && !IsAbsolute(src) {
        StaleSource(m, src, dst, cur);
      }
    }
  }

  /** A copy that reports success between two different files leaves the source's bytes and every other
      file's regions alone and makes the destination read as the source, up to the size it records: all of
      it, or as many whole regions as there was room for. All of that can be read back exactly when the
      destination is new, or region 0 was taken, or the data fits the destination's old regions. */
  lemma CopySound(m: Image, cs: seq<seq<nat>>, src: seq<byte>, dst: seq<byte>, cur: u64, n: nat) returns (ks: nat, kd: nat)
    requires SepOk(m, cs) && WellNamed(m.table)
    requires 0 !in dst && 1 <= |LastName(dst)| <= 23 && FitsFrom(m.table, dst, cur)
    requires IdOf(m.table, dst, cur) == NOT_FOUND ==> LeavesRoom(m.table, dst, cur) || Avoids(src, cur, NewId(m))
    requires CopyFile(m, src, dst, cur).1 == 0 && IdOf(m.table, dst, cur) != IdOf(m.table, src, cur)
    ensures Slots(m, CopyFile(m, src, dst, cur).0, src, dst, cur, ks, kd) && Separated(CopyFile(m, src, dst, cur).0)
    ensures Copied(m, ks, CopyFile(m, src, dst, cur).0, kd, CopyData(m, ks), n,
                   IdOf(m.table, dst, cur) == NOT_FOUND || m.store.bits[0] || m.table[ks].size <= Room(REGION, |cs[kd]|))
    ensures Complete(m, cs, ks) ==> CopyData(m, ks) == Contents(m, m.table[ks], m.table[ks].size)
  {
    CopyGoesThrough(m, src, dst, cur);
    if IdOf(m.table, dst, cur) == NOT_FOUND && LeavesRoom(m.table, dst, cur) { SourceAvoids(m, src, dst, cur); }
    var m1 := CopyTarget(m, dst, cur).0;
    ks := FileSlot(m.table, IdOf(m.table, src, cur)).value;
    var cs1 := CopyPrepared(m, cs, src, dst, cur);
    var cs' := CopySeparated(m, cs, src, dst, cur);
    kd := FileSlot(m1.table, IdOf(m1.table, dst, cur)).value;
    CopyDataIs(m, cs, ks);
    CopyIsWrite(m, src, dst, cur, ks);
    CopyWrites(m1, cs1, ks, kd, CopyData(m, ks), n);
    WriteKeepsPath(m1, dst, cur, CopyData(m, ks));
  }

  // ---------------------------------------------------------------- a copy from the id its destination gets

  /** The destination of a copy is about to be created, and the source path is one that its creation can change. */
  ghost predicate FromItsNewId(m: Image, src: seq<byte>, dst: seq<byte>, cur: u64, ks: nat) {
    && ImageOk(m) && WellNamed(m.table) && 0 !in dst && 1 <= |LastName(dst)| <= 23 && FitsFrom(m.table, dst, cur)
    && FileSlot(m.table, IdOf(m.table, src, cur)) == Some(ks) && m.table[ks].size <= COPY_MAX
    && IdOf(m.table, dst, cur) == NOT_FOUND && MkFile(m, dst, cur).1 == 0 && SlotWith(m.table, 0).Some?
    && !Avoids(src, cur, NewId(m))
  }

  function Zeros(n: nat): (z: seq<byte>)
    ensures |z| == n
  {
    seq(n, i => 0)
  }

  /** Both paths then mean the new, empty file. */
  lemma BothMeanNew(m: Image, src: seq<byte>, dst: seq<byte>, cur: u64, ks: nat)
    requires FromItsNewId(m, src, dst, cur, ks) && !LeavesRoom(m.table, dst, cur)
    ensures var m1 := MkFile(m, dst, cur).0;
      IdsOk(m1.table) && IdOf(m1.table, src, cur) == NewId(m) == IdOf(m1.table, dst, cur)
  {
    hide MkFile, PathToAbs, ParentOf, Split, Join, WellNamed, LeavesRoom, IdOf, GridOk, LastName, EntriesOk, FitsFrom;
    SourceNonempty(m, src, dst, cur, ks);
    StaleSource(m, src, dst, cur);
    LastIdBelow(m);
    MkFileResolves(m, dst, cur, dst, 0);
    DstMeansNew(m.table, dst, cur, NewId(m));
  }

  lemma SourceNonempty(m: Image, src: seq<byte>, dst: seq<byte>, cur: u64, ks: nat)
    requires FromItsNewId(m, src, dst, cur, ks)
    ensures src != []
  {
    LastIdBelow(m);
    NoEntryPath(m.table, cur);
    EmptyIsRoot(m.table, cur);
  }

  lemma DstMeansNew(t: seq<Entry>, dst: seq<byte>, cur: u64, id: u64)
    requires IdsOk(t) && FitsFrom(t, dst, cur) && !LeavesRoom(t, dst, cur) && SlotWith(t, id) == None
    ensures MeansNew(dst, cur, id)
  {
    if !Avoids(dst, cur, id) {
      NoEntryPath(t, id);
      var a := PathToAbs(t, dst, cur);
      assert a == [SLASH] + dst && a[1..] == dst;
      assert Split(a) == Split(dst);
    }
  }

  /** So the copy reads nothing, and writes the zeros of its buffer. */
  lemma ZerosWritten(m: Image, src: seq<byte>, dst: seq<byte>, cur: u64, ks: nat)
    requires FromItsNewId(m, src, dst, cur, ks) && !LeavesRoom(m.table, dst, cur)
    ensures var m1 := MkFile(m, dst, cur).0;
      && ImageOk(m1) && FileSlot(m1.table, NewId(m)) == SlotWith(m.table, 0)
      && CopyFile(m, src, dst, cur) == WriteById(m1, NewId(m), Zeros(m.table[ks].size))
  {
    BothMeanNew(m, src, dst, cur, ks);
    MkFileAdds(m, dst, cur, SlotWith(m.table, 0).value);
    var m1, size := MkFile(m, dst, cur).0, m.table[ks].size;
    hide IdOf, MkFile, LeavesRoom, WellNamed, FitsFrom, MaxId, IdsOk, GridOk, EntriesOk, CopyFile, SourceBytes, WriteById;
    ReadsNothing(m1, src, cur, SlotWith(m.table, 0).value, size);
    CopyGoesOn(m, src, dst, cur, ks, Zeros(size));
  }

  lemma ReadsNothing(m: Image, src: seq<byte>, cur: u64, k: nat, size: nat)
    requires ImageOk(m) && FileSlot(m.table, IdOf(m.table, src, cur)) == Some(k) && m.table[k].size == 0
    ensures SourceBytes(m, src, cur, size) == Some(Zeros(size))
  {
    assert ReadBytes(m, src, cur, size) == Some([]);
    assert ZeroFilled([], size) == Zeros(size);
  }

  lemma CopyGoesOn(m: Image, src: seq<byte>, dst: seq<byte>, cur: u64, ks: nat, d: seq<byte>)
    requires ImageOk(m) && |LastName(dst)| <= 23 && FileSlot(m.table, IdOf(m.table, src, cur)) == Some(ks)
    requires m.table[ks].size <= COPY_MAX && IdOf(m.table, dst, cur) == NOT_FOUND && MkFile(m, dst, cur).1 == 0
    requires ImageOk(MkFile(m, dst, cur).0) && SourceBytes(MkFile(m, dst, cur).0, src, cur, m.table[ks].size) == Some(d)
    ensures CopyFile(m, src, dst, cur) == WriteFile(MkFile(m, dst, cur).0, dst, d, cur)
  {
    hide IdOf, MkFile, WriteFile, SourceBytes, GridOk, EntriesOk, IdsOk, MaxId;
  }

  /** The file in slot `k` reads as zeros. */
  ghost predicate HoldsZeros(m: Image, k: nat, id: u64, n: nat) {
    && ImageOk(m) && k < TABLE_ENTRIES && IsFile(m.table[k]) && m.table[k].id == id
    && Contents(m, m.table[k], n) == Zeros(Min(m.table[k].size, n))
  }

  /** A copy whose source path is relative and used from the id that its new destination is given reports success
      exactly when the destination has one of the longest paths there are. It then stores zeros. */
  lemma CopyOfNew(m: Image, cs: seq<seq<nat>>, src: seq<byte>, dst: seq<byte>, cur: u64, ks: nat, n: nat)
      returns (kd: nat)
    requires SepOk(m, cs) && FromItsNewId(m, src, dst, cur, ks)
    ensures CopyFile(m, src, dst, cur).1 == 0 <==> !LeavesRoom(m.table, dst, cur)
    ensures kd < TABLE_ENTRIES && SlotWith(m.table, 0) == Some(kd)
    ensures !LeavesRoom(m.table, dst, cur) ==> HoldsZeros(CopyFile(m, src, dst, cur).0, kd, NewId(m), n)
  {
    hide LeavesRoom, GridOk, IdOf, MkFile, CopyFile, WriteById, HoldsZeros, IdsOk;
    kd := SlotWith(m.table, 0).value;
    if LeavesRoom(m.table, dst, cur) {
      SourceNonempty(m, src, dst, cur, ks);
      StaleSource(m, src, dst, cur);
      if CopyFile(m, src, dst, cur).1 == 0 { CopyNeedsSource(m, src, dst, cur); }
    } else {
      ZerosWritten(m, src, dst, cur, ks);
      ZerosRead(m, cs, dst, cur, kd, Zeros(m.table[ks].size), n);
    }
  }

  lemma ZerosRead(m: Image, cs: seq<seq<nat>>, dst: seq<byte>, cur: u64, kd: nat, d: seq<byte>, n: nat)
    requires SepOk(m, cs) && |LastName(dst)| <= 23 && MkFile(m, dst, cur).1 == 0 && SlotWith(m.table, 0) == Some(kd)
    requires |d| <= COPY_MAX && forall i :: 0 <= i < |d| ==> d[i] == 0
    ensures ImageOk(MkFile(m, dst, cur).0)
    ensures WriteById(MkFile(m, dst, cur).0, NewId(m), d).1 == 0
    ensures HoldsZeros(WriteById(MkFile(m, dst, cur).0, NewId(m), d).0, kd, NewId(m), n)
  {
    MkFileAdds(m, dst, cur, kd);
    MkTakesZero(m, dst, cur);
    var cs1 := MkFileSeparated(m, cs, dst, cur);
    hide MkFile, GridOk, EntriesOk, WriteById, HoldsZeros, Chained, FreeEnds, IdsOk, MaxId, FirstFit, Mark;
    ZerosStored(MkFile(m, dst, cur).0, cs1, kd, d, n);
  }

  lemma ZerosStored(m: Image, cs: seq<seq<nat>>, k: nat, d: seq<byte>, n: nat)
    requires SepOk(m, cs) && k < TABLE_ENTRIES && IsFile(m.table[k]) && m.store.bits != [] && m.store.bits[0]
    requires |d| <= COPY_MAX && forall i :: 0 <= i < |d| ==> d[i] == 0
    ensures WriteById(m, m.table[k].id, d).1 == 0
    ensures HoldsZeros(WriteById(m, m.table[k].id, d).0, k, m.table[k].id, n)
  {
    hide WriteById, GridOk, Room, FreeEnds, IdsOk, MaxId, FirstFit, ReadFrom, ChainOk, WriteFrom;
    WriteThenRead(m, cs, k, d, n);
    WriteKeepsId(m, k, d);
  }

  lemma WriteKeepsId(m: Image, k: nat, data: seq<byte>)
    requires ImageOk(m) && k < TABLE_ENTRIES && |data| < U64
    ensures WriteById(m, m.table[k].id, data).0.table[k].id == m.table[k].id
  {
  }
}
