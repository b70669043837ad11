/** A run after which two live files share a region, and a write to one shows up in the other. */
module Sharing {
  import opened Bytes
  import opened Regions
  import Chains
  import opened Entries
  import opened Disk
  import opened Table
  import opened Paths
  import opened Names
  import opened PathNames
  import opened FileSystem
  import opened Separation
  import Creation
  import Transfers
  import Removal

  // ---------------------------------------------------------------- files in the root directory

  /** "/x" */
  function Root(x: byte): seq<byte> { [SLASH, x] }

  lemma RootParts(x: byte)
    requires x != SLASH
    ensures IsAbsolute(Root(x)) && LastName(Root(x)) == [x] && Split(Root(x)) == [[x]]
  {
    LastSlashIs(Root(x), 0);
    assert Root(x)[1..] == [x];
    SplitHead([x], []);
    assert [x] + [] == [x] && Split([]) == [];
  }

  lemma RootId(t: seq<Entry>, x: byte, cur: u64)
    requires IdsOk(t) && x != SLASH
    ensures IdOf(t, Root(x), cur) == Lookup(t, [x], 0) && PathToId(t, Root(x), cur) == Lookup(t, [x], 0)
  {
    RootParts(x);
    assert Truncated(Root(x)) == Root(x);
    assert Walk(t, [[x]], 0) == Walk(t, [], Lookup(t, [x], 0));
  }

  lemma NotNamed(t: seq<Entry>, x: byte)
    requires IdsOk(t) && WellNamed(t) && forall k :: 0 <= k < |t| && t[k].id != 0 ==> NameOfEntry(t[k]) != [x]
    ensures Lookup(t, [x], 0) == NOT_FOUND
  {
    forall k | 0 <= k < |t|
      ensures !Matches(t[k], [x], 0)
    {
      if t[k].id == 0 { FreeNameEmpty(t[k]); }
      MatchIs(t[k], [x], 0);
    }
  }

  /** What `m'` is after "/x" has been created in `m`, in slot `k` with first region `f`. */
  ghost predicate Made(m: Image, x: byte, k: nat, f: nat, m': Image) {
    && ImageOk(m') && WellNamed(m'.table) && k < TABLE_ENTRIES == |m.table| && NewId(m) != NOT_FOUND && NewId(m) != 0
    && m'.store == m.store.(bits := Mark(m.store.bits, f, REGION, true))
    && (forall j :: 0 <= j < TABLE_ENTRIES && j != k ==> m'.table[j] == m.table[j])
    && IsFile(m'.table[k]) && m'.table[k].id == NewId(m) && m'.table[k].frame == f && m'.table[k].size == 0
    && NameOfEntry(m'.table[k]) == [x] && m'.lastId == NewId(m)
    && Refers(m'.table, x, k)
  }

  /** "/x" names the file in slot `k`. */
  ghost predicate Refers(t: seq<Entry>, x: byte, k: nat) {
    && IdsOk(t) && k < |t| && t[k].id != 0 && t[k].id != NOT_FOUND
    && Lookup(t, [x], 0) == t[k].id && FileSlot(t, t[k].id) == Some(k)
  }

  lemma MakeAtRoot(m: Image, x: byte, k: nat, f: nat)
    requires ImageOk(m) && WellNamed(m.table) && x != SLASH && x != 0
    requires SlotWith(m.table, 0) == Some(k) && FirstFit(m.store.bits, REGION) == Some(f) && NewId(m) != NOT_FOUND
    requires Lookup(m.table, [x], 0) == NOT_FOUND
    ensures Legal(Mk(Root(x), 0)) && Made(m, x, k, f, Step(m, Mk(Root(x), 0)))
  {
    var p, m' := Root(x), Step(m, Mk(Root(x), 0));
    RootParts(x);
    RootId(m.table, x, 0);
    RootParent(m.table, x);
    LastIdBelow(m);
    assert MkFile(m, p, 0).1 == 0;
    Creation.MkFileResolves(m, p, 0, p, 0);
    Transfers.MkFileAdds(m, p, 0, k);
    RootId(m'.table, x, 0);
    CStringOfName([x]);
    NewMax(m, FileEntry(m, p, 0, f), k);
  }

  lemma RootParent(t: seq<Entry>, x: byte)
    requires IdsOk(t) && x != SLASH
    ensures PathToAbs(t, Root(x), 0) == Root(x) && ParentOf(t, Root(x), 0) == 0
  {
    RootParts(x);
    LastSlashIs(Root(x), 0);
    assert Truncated(Root(x)) == Root(x) && StripSlashes(Root(x)) == Root(x);
  }

  lemma NewMax(m: Image, e: Entry, k: nat)
    requires ImageOk(m) && k < TABLE_ENTRIES && e.id == NewId(m) != NOT_FOUND
    ensures MaxId(m.table[k := e], TABLE_ENTRIES) == e.id
  {
    LastIdBelow(m);
    MaxIdIs(m.table[k := e], TABLE_ENTRIES);
    assert m.table[k := e][k].id == e.id;
  }

  // ---------------------------------------------------------------- writing and removing by name

  lemma WriteByName(m: Image, x: byte, k: nat, data: seq<byte>)
    requires ImageOk(m) && x != SLASH && Refers(m.table, x, k) && |data| + 7 < U64
    ensures Step(m, Write(Root(x), data, 0)) == WriteById(m, m.table[k].id, data).0
  {
    RootId(m.table, x, 0);
    hide WriteById, IdOf;
  }

  lemma WriteSlot(m: Image, k: nat, data: seq<byte>)
    requires ImageOk(m) && k < TABLE_ENTRIES && FileSlot(m.table, m.table[k].id) == Some(k) && |data| + 7 < U64
    ensures var w := WriteFrom(m.store, REGION, m.table[k].frame, data);
      WriteById(m, m.table[k].id, data).0 == m.(store := w.store, table := m.table[k := m.table[k].(size := w.size)])
  {
    hide FileSlot, IdsOk, MaxId, Uniform;
    assert EntryOk(m.table[k], |m.store.bits|);
  }

  lemma SizeKeepsNames(t: seq<Entry>, k: nat, size: u64)
    requires WellNamed(t) && k < |t|
    ensures WellNamed(t[k := t[k].(size := size)])
  {
  }

  /** A write by name changes the store and the file's size. */
  lemma WriteAt(m: Image, x: byte, k: nat, data: seq<byte>)
    requires ImageOk(m) && WellNamed(m.table) && x != SLASH && Refers(m.table, x, k) && |data| + 7 < U64
    ensures IsFile(m.table[k]) && InGrid(|m.store.bits|, REGION, m.table[k].frame)
    ensures var w, m' := WriteFrom(m.store, REGION, m.table[k].frame, data), Step(m, Write(Root(x), data, 0));
      && m' == m.(store := w.store, table := m.table[k := m.table[k].(size := w.size)])
      && WellNamed(m'.table)
  {
    assert IsFile(m.table[k]) && EntryOk(m.table[k], |m.store.bits|);
    WriteByName(m, x, k, data);
    WriteSlot(m, k, data);
    hide Step, WriteById, WriteFrom, IdsOk, GridOk, Lookup, FileSlot, MaxId, WellNamed, Refers, EntriesOk;
    SizeKeepsNames(m.table, k, WriteFrom(m.store, REGION, m.table[k].frame, data).size);
  }

  lemma WriteKeepsName(m: Image, x: byte, k: nat, data: seq<byte>, y: byte, j: nat)
    requires ImageOk(m) && WellNamed(m.table) && x != SLASH && Refers(m.table, x, k) && |data| + 7 < U64
    requires Refers(m.table, y, j)
    ensures Refers(Step(m, Write(Root(x), data, 0)).table, y, j)
  {
    WriteAt(m, x, k, data);
    var t' := Step(m, Write(Root(x), data, 0)).table;
    SameLookup(m.table, t', [y], 0);
    SlotIs(t', j);
  }

  lemma RmAt(m: Image, x: byte, k: nat)
    requires ImageOk(m) && x != SLASH && Refers(m.table, x, k)
    ensures Step(m, Rm(Root(x), 0)) == RmFileById(m, m.table[k].id).0
  {
    RootId(m.table, x, 0);
  }

  lemma ReadByName(m: Image, x: byte, k: nat, n: nat)
    requires ImageOk(m) && RootName(x) && Refers(m.table, x, k)
    ensures IsFile(m.table[k]) && ReadBytes(m, Root(x), 0, n) == Some(Contents(m, m.table[k], n))
  {
    RootId(m.table, x, 0);
  }

  // ---------------------------------------------------------------- the store

  lemma NoneTaken(bits: seq<bool>)
    requires |bits| >= 16 && forall i :: 0 <= i < |bits| ==> !bits[i]
    ensures FirstFit(bits, REGION) == Some(0)
    ensures FirstFit(Mark(bits, 0, REGION, true), REGION) == Some(8)
  {
    Removal.NextFit(bits, 0);
    Removal.NextFit(Mark(bits, 0, REGION, true), 8);
  }

  /** The first two regions hold the data; region 0 points at region 8. */
  lemma TwoRegions(st: Store, data: seq<byte>)
    requires GridOk(st, REGION) && FirstFit(st.bits, REGION) == Some(8) && IsEnd(Next(st, REGION, 0))
    requires InGrid(|st.bits|, REGION, 0) && InGrid(|st.bits|, REGION, 8)
    requires Capacity(REGION) < |data| <= 2 * Capacity(REGION)
    ensures Next(WriteFrom(st, REGION, 0, data).store, REGION, 0) == 8
  {
    var cap := Capacity(REGION);
    var st1 := st.(bits := Mark(st.bits, 8, REGION, true));
    MarkKeepsGrid(st, REGION, 8, true);
    PutKeepsGrid(st1, REGION, 0, data[..cap], 8);
    var st2 := Put(st1, REGION, 0, data[..cap], 8);
    PutNext(st1, REGION, 0, data[..cap], 8, 0);
    PutNext(st2, REGION, 8, data[cap..], 0, 0);
    assert WriteFrom(st2, REGION, 8, data[cap..]).store == Put(st2, REGION, 8, data[cap..], 0);
    assert Grow(st, REGION, 0) == Some((st1, 8));
  }

  // ---------------------------------------------------------------- the run

  /** No file and no taken region. */
  ghost predicate Bare(m: Image) {
    && ImageOk(m) && |m.store.bits| >= 16 && m.lastId == 0
    && (forall k :: 0 <= k < TABLE_ENTRIES ==> m.table[k] == FreeSlot())
    && (forall i :: 0 <= i < |m.store.bits| ==> !m.store.bits[i])
  }

  /** Nor a pointer to another region, as after a format of a zeroed disk. */
  ghost predicate Blank(m: Image) {
    Bare(m) && Chains.FreeEnds(m.store, REGION)
  }

  lemma BlankParts(m: Image)
    requires Blank(m)
    ensures WellNamed(m.table) && SlotWith(m.table, 0) == Some(0) && NewId(m) == 1
    ensures InGrid(|m.store.bits|, REGION, 0) && InGrid(|m.store.bits|, REGION, 8)
    ensures FirstFit(m.store.bits, REGION) == Some(0) && FirstFit(Mark(m.store.bits, 0, REGION, true), REGION) == Some(8)
    ensures forall x: byte :: Lookup(m.table, [x], 0) == NOT_FOUND
  {
    NoneTaken(m.store.bits);
    assert OnGrid(0, REGION) && OnGrid(8, REGION);
    FirstWith(m.table, 0, 0);
    forall x: byte
      ensures Lookup(m.table, [x], 0) == NOT_FOUND
    {
      NotNamed(m.table, x);
    }
  }

  predicate RootName(x: byte) { x != SLASH && x != 0 }

  /** Creating "/a", writing two regions to it and removing it leaves nothing but a pointer in a free region. */
  lemma Leftover(m: Image, a: byte, data: seq<byte>) returns (m3: Image)
    requires Blank(m) && RootName(a) && Capacity(REGION) < |data| <= 2 * Capacity(REGION)
    ensures Legal(Mk(Root(a), 0)) && Bare(m3)
    ensures m3 == Step(Step(Step(m, Mk(Root(a), 0)), Write(Root(a), data, 0)), Rm(Root(a), 0))
    ensures Next(m3.store, REGION, 0) == 8
  {
    hide MaxId, Lookup, IdsOk, EntriesOk, Uniform, SlotWith, Contents;
    BlankParts(m);
    MakeAtRoot(m, a, 0, 0);
    var m1 := Step(m, Mk(Root(a), 0));
    WriteAt(m1, a, 0, data);
    WriteKeepsName(m1, a, 0, data, a, 0);
    var m2 := Step(m1, Write(Root(a), data, 0));
    RmAt(m2, a, 0);
    m3 := Step(m2, Rm(Root(a), 0));
    RootId(m1.table, a, 0);
    RootParts(a);
    RootId(m.table, a, 0);
    RootParent(m.table, a);
    assert Next(m1.store, REGION, 0) == Next(m.store, REGION, 0);
    TwoRegions(m1.store, data);
    Transfers.Conservation(m, Root(a), 0, data);
  }

  lemma LinkedChains(st: Store, a: Entry, b: Entry, ca: seq<nat>, cb: seq<nat>)
    requires ChainOk(st, a, ca) && ChainOk(st, b, cb) && InGrid(|st.bits|, REGION, a.frame)
    requires Next(st, REGION, a.frame) == b.frame && !IsEnd(b.frame)
    ensures !Chains.Apart(ca, cb)
  {
    assert ca[1] in ca && cb[0] in cb;
  }

  /** Two files whose first regions are linked are not apart. */
  lemma LinkedFiles(m: Image, j: nat, k: nat)
    requires ImageOk(m) && j < k < TABLE_ENTRIES && IsFile(m.table[j]) && IsFile(m.table[k])
    requires InGrid(|m.store.bits|, REGION, m.table[j].frame)
    requires Next(m.store, REGION, m.table[j].frame) == m.table[k].frame && !IsEnd(m.table[k].frame)
    ensures !Separated(m)
  {
    forall cs
      ensures !SepOk(m, cs)
    {
      if |cs| == |m.table| && ChainOk(m.store, m.table[j], cs[j]) && ChainOk(m.store, m.table[k], cs[k]) {
        LinkedChains(m.store, m.table[j], m.table[k], cs[j], cs[k]);
      }
    }
  }

  /** The next two files made: "/b" in slot 0 with region 0, "/c" in slot 1 with region 8. */
  lemma MakeTwo(m: Image, b: byte, c: byte) returns (m2: Image)
    requires Bare(m) && RootName(b) && RootName(c) && b != c
    ensures Legal(Mk(Root(b), 0)) && Legal(Mk(Root(c), 0))
    ensures m2 == Step(Step(m, Mk(Root(b), 0)), Mk(Root(c), 0))
    ensures ImageOk(m2) && WellNamed(m2.table) && m2.store.sectors == m.store.sectors && |m2.store.bits| == |m.store.bits|
    ensures Refers(m2.table, b, 0) && Refers(m2.table, c, 1)
    ensures IsFile(m2.table[0]) && m2.table[0].frame == 0 && IsFile(m2.table[1]) && m2.table[1].frame == 8
    ensures m2.table[0].size == m2.table[1].size == 0
  {
    NoneTaken(m.store.bits);
    FirstWith(m.table, 0, 0);
    NotNamed(m.table, b);
    MakeAtRoot(m, b, 0, 0);
    var m1 := Step(m, Mk(Root(b), 0));
    FirstWith(m1.table, 0, 1);
    NotNamed(m1.table, c);
    MakeAtRoot(m1, c, 1, 8);
    m2 := Step(m1, Mk(Root(c), 0));
    MkKeepsName(m1, b, c, 0, 1, 8, m2);
  }

  /** A creation keeps what another name refers to. */
  lemma MkKeepsName(m: Image, b: byte, c: byte, j: nat, k: nat, f: nat, m': Image)
    requires ImageOk(m) && Refers(m.table, b, j) && Made(m, c, k, f, m') && j != k && b != c
    requires m.table[k] == FreeSlot()
    ensures Refers(m'.table, b, j)
  {
    SlotIs(m'.table, j);
    forall i | 0 <= i < TABLE_ENTRIES
      ensures Matches(m'.table[i], [b], 0) == Matches(m.table[i], [b], 0)
    {
      if i == k {
        FreeNameEmpty(m.table[k]);
        MatchIs(m.table[k], [b], 0);
        MatchIs(m'.table[k], [b], 0);
      }
    }
    SameMatches(m.table, m'.table, [b], 0);
  }

  // The calls of the run.

  function Remove(a: byte, data: seq<byte>): seq<Call> {
    [Mk(Root(a), 0), Write(Root(a), data, 0), Rm(Root(a), 0)]
  }

  function MkBoth(b: byte, c: byte): seq<Call> { [Mk(Root(b), 0), Mk(Root(c), 0)] }

  function WriteBoth(b: byte, c: byte, dataC: seq<byte>, dataB: seq<byte>): seq<Call> {
    [Write(Root(c), dataC, 0), Write(Root(b), dataB, 0)]
  }

  ghost predicate AllLegal(cs: seq<Call>) { forall c :: c in cs ==> Legal(c) }

  lemma RunTwo(m: Image, x: Call, y: Call)
    requires ImageOk(m) && Legal(x) && Legal(y)
    ensures AllLegal([x, y]) && Run(m, [x, y]) == Step(Step(m, x), y)
  {
    hide Step, Legal;
    assert [x, y][1..] == [y] && [y][1..] == [];
    assert Run(Step(m, x), [y]) == Run(Step(Step(m, x), y), []);
  }

  lemma RunThree(m: Image, x: Call, y: Call, z: Call)
    requires ImageOk(m) && Legal(x) && Legal(y) && Legal(z)
    ensures AllLegal([x, y, z]) && Run(m, [x, y, z]) == Step(Step(Step(m, x), y), z)
  {
    hide Step, Legal;
    assert [x, y, z][1..] == [y, z];
    RunTwo(Step(m, x), y, z);
  }

  /** From a formatted volume: "/a" is made, written over two regions and removed; "/b" and "/c" are made, "/c"
      is written, and then "/b" over two regions. From then on "/c" reads as the second part of what was
      written to "/b", and no assignment of regions keeps the two files apart. */
  lemma RemovalThenShared(m: Image, a: byte, b: byte, c: byte, dataA: seq<byte>, dataC: seq<byte>, dataB: seq<byte>, n: nat)
      returns (m': Image)
    requires Blank(m) && RootName(a) && RootName(b) && RootName(c) && b != c
    requires Capacity(REGION) < |dataA| <= 2 * Capacity(REGION) && Capacity(REGION) < |dataB| <= 2 * Capacity(REGION)
    requires 0 < |dataC| <= |dataB| - Capacity(REGION)
    ensures AllLegal(Remove(a, dataA) + (MkBoth(b, c) + WriteBoth(b, c, dataC, dataB)))
    ensures m' == Run(m, Remove(a, dataA) + (MkBoth(b, c) + WriteBoth(b, c, dataC, dataB)))
    ensures Refers(m'.table, b, 0) && Refers(m'.table, c, 1) && IsFile(m'.table[1]) && m'.table[1].size == |dataC|
    ensures ReadBytes(m', Root(c), 0, n) == Some(dataB[Capacity(REGION)..][..Min(|dataC|, n)])
    ensures !Separated(m')
  {
    hide Step, Refers, Contents, ReadBytes, Separated, IsFile, RootName, IdsOk, GridOk, EntriesOk, Run, Legal;
    var m3 := Leftover(m, a, dataA);
    var m5 := MakeTwo(m3, b, c);
    m' := OverwriteOther(m5, b, c, dataC, dataB, n);
    ReadByName(m', c, 1, n);
    WritesLegal(b, c, dataC, dataB);
    WritesLegal(a, a, dataA, dataA);
    RunThree(m, Mk(Root(a), 0), Write(Root(a), dataA, 0), Rm(Root(a), 0));
    RunTwo(m3, Mk(Root(b), 0), Mk(Root(c), 0));
    RunTwo(m5, Write(Root(c), dataC, 0), Write(Root(b), dataB, 0));
    RunOn(m3, MkBoth(b, c), WriteBoth(b, c, dataC, dataB));
    RunOn(m, Remove(a, dataA), MkBoth(b, c) + WriteBoth(b, c, dataC, dataB));
  }

  lemma WritesLegal(b: byte, c: byte, dataC: seq<byte>, dataB: seq<byte>)
    requires |dataB| <= 2 * Capacity(REGION) && |dataC| <= |dataB|
    ensures Legal(Write(Root(c), dataC, 0)) && Legal(Write(Root(b), dataB, 0)) && Legal(Rm(Root(b), 0))
  {
  }

  /** The store's side: a write to region 8, then one from region 0, which points at region 8. */
  lemma StoreOverwrite(st: Store, dataC: seq<byte>, dataB: seq<byte>, n: nat)
    requires GridOk(st, REGION) && |st.bits| >= 16 && Next(st, REGION, 0) == 8
    requires Capacity(REGION) < |dataB| <= 2 * Capacity(REGION) && 0 < |dataC| <= |dataB| - Capacity(REGION)
    requires InGrid(|st.bits|, REGION, 0) && InGrid(|st.bits|, REGION, 8)
    ensures var w := WriteFrom(st, REGION, 8, dataC); var w' := WriteFrom(w.store, REGION, 0, dataB);
      && w.size == |dataC| && |w.store.bits| == |st.bits| && |w'.store.bits| == |st.bits|
      && Next(w'.store, REGION, 0) == 8
      && ReadFrom(w'.store, REGION, 8, Min(|dataC|, n)) == dataB[Capacity(REGION)..][..Min(|dataC|, n)]
  {
    PutNext(st, REGION, 8, dataC, 0, 0);
    assert WriteFrom(st, REGION, 8, dataC) == Written(Put(st, REGION, 8, dataC, 0), |dataC|, [8]);
    Removal.StalePointerFollowed(WriteFrom(st, REGION, 8, dataC).store, 0, dataB, Min(|dataC|, n));
  }

  /** Writing to "/c" and then over two regions to "/b", whose region 0 still points at region 8. */
  lemma OverwriteOther(m: Image, b: byte, c: byte, dataC: seq<byte>, dataB: seq<byte>, n: nat) returns (m': Image)
    requires ImageOk(m) && WellNamed(m.table) && RootName(b) && RootName(c) && |m.store.bits| >= 16
    requires Refers(m.table, b, 0) && Refers(m.table, c, 1) && Next(m.store, REGION, 0) == 8
    requires IsFile(m.table[0]) && m.table[0].frame == 0 && IsFile(m.table[1]) && m.table[1].frame == 8
    requires Capacity(REGION) < |dataB| <= 2 * Capacity(REGION) && 0 < |dataC| <= |dataB| - Capacity(REGION)
    ensures m' == Step(Step(m, Write(Root(c), dataC, 0)), Write(Root(b), dataB, 0)) && ImageOk(m')
    ensures Refers(m'.table, b, 0) && Refers(m'.table, c, 1) && IsFile(m'.table[1]) && m'.table[1].size == |dataC|
    ensures Contents(m', m'.table[1], n) == dataB[Capacity(REGION)..][..Min(|dataC|, n)]
    ensures !Separated(m')
  {
    hide Step, WriteFrom, ReadFrom, Refers, WellNamed, IdsOk, Uniform, Separated, MaxId;
    WriteAt(m, c, 1, dataC);
    WriteKeepsName(m, c, 1, dataC, b, 0);
    WriteKeepsName(m, c, 1, dataC, c, 1);
    var m6 := Step(m, Write(Root(c), dataC, 0));
    WriteAt(m6, b, 0, dataB);
    WriteKeepsName(m6, b, 0, dataB, b, 0);
    WriteKeepsName(m6, b, 0, dataB, c, 1);
    m' := Step(m6, Write(Root(b), dataB, 0));
    StoreOverwrite(m.store, dataC, dataB, n);
    LinkedFiles(m', 0, 1);
  }
}
