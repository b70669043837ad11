/** Runs from a formatted volume that reach states in which a call does not do what one would expect. */
module Reachable {
  import opened Bytes
  import opened Regions
  import opened Entries
  import opened Disk
  import opened Table
  import opened Paths
  import opened Names
  import opened PathNames
  import opened FileSystem
  import opened Separation
  import opened Sharing
  import Order
  import Outcomes
  import Transfers
  import Tree

  // ---------------------------------------------------------------- a write that does not read back

  /** A blank volume keeps files apart, there being none. */
  lemma BlankSeparated(m: Image)
    requires Blank(m)
    ensures Bare(m) && ImageOk(m) && Separated(m)
  {
    assert SepOk(m, seq(TABLE_ENTRIES, i => []));
  }

  /** "/b" and "/c" made and "/b" removed: the file in slot 1 has region 8 alone, and region 0 is free. */
  lemma FirstFreed(m: Image, b: byte, c: byte) returns (m3: Image, cs: seq<seq<nat>>)
    requires Blank(m) && RootName(b) && RootName(c) && b != c
    ensures Legal(Mk(Root(b), 0)) && Legal(Mk(Root(c), 0))
    ensures m3 == Step(Step(Step(m, Mk(Root(b), 0)), Mk(Root(c), 0)), Rm(Root(b), 0))
    ensures SepOk(m3, cs) && WellNamed(m3.table) && Refers(m3.table, c, 1) && IsFile(m3.table[1]) && cs[1] == [8]
    ensures !m3.store.bits[0]
  {
    hide Step, Legal, SepOk, Separated, Refers, WellNamed, Blank, Bare, ImageOk, RootName;
    BlankSeparated(m);
    var m2 := MakeTwo(m, b, c);
    MakesSeparated(m, Root(b), Root(c));
    var cs2 := TwoChains(m2);
    m3, cs := RemoveFirst(m2, cs2, b, c);
  }

  /** An empty file's chain is its first region. */
  lemma EmptyChain(st: Store, e: Entry, ch: seq<nat>)
    requires ChainOk(st, e, ch) && e.size == 0
    ensures ch == [e.frame]
  {
  }

  lemma MakesSeparated(m: Image, p: seq<byte>, q: seq<byte>)
    requires ImageOk(m) && Separated(m) && Legal(Mk(p, 0)) && Legal(Mk(q, 0))
    ensures Separated(Step(Step(m, Mk(p, 0)), Mk(q, 0)))
  {
    hide Step, SepOk, Legal;
    StepSeparated(m, Mk(p, 0));
    StepSeparated(Step(m, Mk(p, 0)), Mk(q, 0));
  }

  lemma TwoChains(m: Image) returns (cs: seq<seq<nat>>)
    requires Separated(m) && IsFile(m.table[0]) && m.table[0].frame == 0 && IsFile(m.table[1]) && m.table[1].frame == 8
    requires m.table[0].size == m.table[1].size == 0
    ensures SepOk(m, cs) && cs[0] == [0] && cs[1] == [8]
  {
    cs :| SepOk(m, cs);
    EmptyChain(m.store, m.table[0], cs[0]);
    EmptyChain(m.store, m.table[1], cs[1]);
  }

  lemma RemoveFirst(m: Image, cs: seq<seq<nat>>, b: byte, c: byte) returns (m': Image, cs': seq<seq<nat>>)
    requires SepOk(m, cs) && WellNamed(m.table) && RootName(b) && RootName(c) && b != c && cs[0] == [0] && cs[1] == [8]
    requires Refers(m.table, b, 0) && Refers(m.table, c, 1) && IsFile(m.table[0]) && IsFile(m.table[1])
    ensures m' == Step(m, Rm(Root(b), 0)) && SepOk(m', cs') && cs'[1] == [8] && !m'.store.bits[0]
    ensures WellNamed(m'.table) && Refers(m'.table, c, 1) && IsFile(m'.table[1])
  {
    RmAt(m, b, 0);
    m' := Step(m, Rm(Root(b), 0));
    assert ChainOk(m.store, m.table[0], cs[0]);
    cs' := RmFileSeparated(m, cs, 0);
    FreeEndsAfterFree(m.store, m.table[0], [0]);
    GroupOf(0, REGION, 0);
    SlotIs(m.table, 0);
    ErasedKeepsName(m.table, b, c, m'.table);
  }

  lemma ErasedKeepsName(t: seq<Entry>, b: byte, c: byte, t': seq<Entry>)
    requires IdsOk(t) && WellNamed(t) && |t| == TABLE_ENTRIES && t' == t[0 := FreeSlot()] && IdsOk(t') && b != c
    requires Refers(t, b, 0) && Refers(t, c, 1) && IsFile(t[1])
    ensures WellNamed(t') && Refers(t', c, 1)
  {
    RefersNamed(t, b, 0);
    forall i | 0 <= i < |t|
      ensures Matches(t'[i], [c], 0) == Matches(t[i], [c], 0)
    {
      if i == 0 {
        FreeNameEmpty(FreeSlot());
        MatchIs(FreeSlot(), [c], 0);
        MatchIs(t[0], [c], 0);
      }
    }
    SameMatches(t, t', [c], 0);
    SlotIs(t', 1);
  }

  /** A file that "/x" names is called "x". */
  lemma RefersNamed(t: seq<Entry>, x: byte, k: nat)
    requires IdsOk(t) && WellNamed(t) && Refers(t, x, k)
    ensures NameOfEntry(t[k]) == [x]
  {
    var j := FoundEntry(t, [x], 0);
    SlotIs(t, k);
  }

  /** From a formatted volume: "/b" and "/c" are made, "/b" is removed, and two regions' worth is written to "/c".
      The call succeeds and records the whole size, but only the first region's worth can be read: the second
      region is region 0. */
  lemma WriteCutShort(m: Image, b: byte, c: byte, data: seq<byte>) returns (m': Image)
    requires Blank(m) && RootName(b) && RootName(c) && b != c
    requires Capacity(REGION) < |data| <= 2 * Capacity(REGION)
    ensures AllLegal([Mk(Root(b), 0), Mk(Root(c), 0), Rm(Root(b), 0)] + [Write(Root(c), data, 0)])
    ensures m' == Run(m, [Mk(Root(b), 0), Mk(Root(c), 0), Rm(Root(b), 0)] + [Write(Root(c), data, 0)])
    ensures Refers(m'.table, c, 1) && m'.table[1].size == |data|
    ensures ReadBytes(m', Root(c), 0, |data|) == Some(data[..Capacity(REGION)])
  {
    var m3, cs := FirstFreed(m, b, c);
    m' := WriteSecond(m3, cs, c, data);
    WritesLegal(c, c, data, data);
    WritesLegal(b, b, data, data);
    hide Step, Run, Legal, Refers, ReadBytes, Blank, RootName;
    RunThree(m, Mk(Root(b), 0), Mk(Root(c), 0), Rm(Root(b), 0));
    RunOne(m3, Write(Root(c), data, 0));
    RunOn(m, [Mk(Root(b), 0), Mk(Root(c), 0), Rm(Root(b), 0)], [Write(Root(c), data, 0)]);
  }

  lemma RunOne(m: Image, c: Call)
    requires ImageOk(m) && Legal(c)
    ensures AllLegal([c]) && Run(m, [c]) == Step(m, c)
  {
    hide Step, Legal;
    assert [c][1..] == [];
    assert Run(m, [c]) == Run(Step(m, c), []);
  }

  lemma WriteSecond(m: Image, cs: seq<seq<nat>>, c: byte, data: seq<byte>) returns (m': Image)
    requires SepOk(m, cs) && WellNamed(m.table) && RootName(c) && Refers(m.table, c, 1) && IsFile(m.table[1]) && cs[1] == [8]
    requires !m.store.bits[0] && Capacity(REGION) < |data| <= 2 * Capacity(REGION)
    ensures m' == Step(m, Write(Root(c), data, 0)) && Refers(m'.table, c, 1) && m'.table[1].size == |data|
    ensures ReadBytes(m', Root(c), 0, |data|) == Some(data[..Capacity(REGION)])
  {
    WriteByName(m, c, 1, data);
    WriteKeepsName(m, c, 1, data, c, 1);
    m' := Step(m, Write(Root(c), data, 0));
    OneRoom();
    SecondIsCut(m, cs, data);
    ReadByName(m', c, 1, |data|);
  }

  lemma OneRoom()
    ensures Room(REGION, 1) == Capacity(REGION) && Room(REGION, 2) == 2 * Capacity(REGION)
  {
    assert Room(REGION, 1) == Capacity(REGION) + Room(REGION, 0);
    assert Room(REGION, 2) == Capacity(REGION) + Room(REGION, 1);
  }

  lemma SecondIsCut(m: Image, cs: seq<seq<nat>>, data: seq<byte>)
    requires SepOk(m, cs) && IsFile(m.table[1]) && cs[1] == [8] && !m.store.bits[0]
    requires Capacity(REGION) < |data| <= 2 * Capacity(REGION)
    ensures var m' := WriteById(m, m.table[1].id, data).0;
      && ImageOk(m') && IsFile(m'.table[1]) && m'.table[1].size == |data|
      && Contents(m', m'.table[1], |data|) == data[..Capacity(REGION)]
  {
    OneRoom();
    Transfers.WriteThenRead(m, cs, 1, data, |data|);
    SecondSize(m, cs, data);
  }

  lemma SecondSize(m: Image, cs: seq<seq<nat>>, data: seq<byte>)
    requires SepOk(m, cs) && IsFile(m.table[1]) && cs[1] == [8] && !m.store.bits[0]
    requires Capacity(REGION) < |data| <= 2 * Capacity(REGION)
    ensures WriteById(m, m.table[1].id, data).0.table[1].size == |data|
  {
    SlotIs(m.table, 1);
    OneRoom();
    var st := m.store;
    Transfers.GrowsPast(st, REGION, cs[1], data, WriteFrom(st, REGION, 8, data));
    Chains.WriteSize(st, REGION, 8, data);
    var w := WriteFrom(st, REGION, 8, data);
    Chains.RoomGrows(REGION, 2, |w.visited|);
    if w.size < |data| {
      Chains.WriteRunsOut(st, REGION, 8, data);
    }
  }

  // ---------------------------------------------------------------- an orphan

  /** "/x/y" */
  function Below(x: byte, y: byte): seq<byte> { [SLASH, x, SLASH, y] }

  lemma BelowParts(t: seq<Entry>, x: byte, y: byte)
    requires IdsOk(t) && RootName(x) && RootName(y)
    ensures LastName(Below(x, y)) == [y] && PathToAbs(t, Below(x, y), 0) == Below(x, y)
    ensures ParentOf(t, Below(x, y), 0) == Lookup(t, [x], 0)
  {
    var ws: Words := [[x]];
    assert ws + [[y]] == [[x], [y]];
    assert Join([[x], [y]]) == [x] + [SLASH] + Join([[y]]) && Join([[y]]) == [y];
    assert [[x], [y]][1..] == [[y]];
    assert PathFrom(ws + [[y]]) == Below(x, y);
    CanonicalParts(ws, [y]);
    CanonicalParent(t, ws, [y], 0);
    assert Walk(t, ws, 0) == Walk(t, [], Lookup(t, [x], 0));
  }

  /** A file made below the file in slot 0. */
  lemma ChildMade(m: Image, a: byte, b: byte)
    requires ImageOk(m) && WellNamed(m.table) && RootName(a) && RootName(b) && Refers(m.table, a, 0)
    requires SlotWith(m.table, 0) == Some(1) && FirstFit(m.store.bits, REGION).Some? && NewId(m) != NOT_FOUND
    ensures Legal(Mk(Below(a, b), 0))
    ensures var m' := Step(m, Mk(Below(a, b), 0));
      && m'.table[0] == m.table[0] && m'.table[1].id == NewId(m) != 0 && m'.table[1].parent == m.table[0].id
      && (forall j :: 2 <= j < TABLE_ENTRIES ==> m'.table[j] == m.table[j])
      && Refers(m'.table, a, 0)
  {
    var p := Below(a, b);
    BelowParts(m.table, a, b);
    LastIdBelow(m);
    assert MkFile(m, p, 0).1 == 0;
    Transfers.MkFileAdds(m, p, 0, 1);
    var m' := Step(m, Mk(p, 0));
    hide MkFile, ParentOf, PathToAbs, LastName, GridOk;
    OtherParent(m.table, m'.table, a);
  }

  lemma OtherParent(t: seq<Entry>, t': seq<Entry>, a: byte)
    requires IdsOk(t) && IdsOk(t') && |t| == |t'| == TABLE_ENTRIES && RootName(a) && Refers(t, a, 0)
    requires t[1] == FreeSlot() && t'[1].parent != 0 && forall j :: 0 <= j < TABLE_ENTRIES && j != 1 ==> t'[j] == t[j]
    ensures Refers(t', a, 0)
  {
    FreeNameEmpty(t[1]);
    MatchIs(t[1], [a], 0);
    SameMatches(t, t', [a], 0);
    SlotIs(t', 0);
  }

  lemma OrphanLeft(m: Image, a: byte)
    requires ImageOk(m) && RootName(a) && Refers(m.table, a, 0)
    requires m.table[1].id != 0 && m.table[1].parent == m.table[0].id
    ensures !Tree.NoOrphans(Step(m, Rm(Root(a), 0)).table)
  {
    RmAt(m, a, 0);
    var m' := Step(m, Rm(Root(a), 0));
    SlotIs(m.table, 0);
    assert m'.table == m.table[0 := FreeSlot()];
    assert !Tree.Live(m'.table, m.table[0].id);
    assert m'.table[1] == m.table[1];
  }

  /** "/a" made as a file and "/a/b" below it. */
  lemma RootAndChild(m: Image, a: byte, b: byte) returns (m2: Image)
    requires Blank(m) && RootName(a) && RootName(b)
    ensures Legal(Mk(Root(a), 0)) && Legal(Mk(Below(a, b), 0))
    ensures m2 == Step(Step(m, Mk(Root(a), 0)), Mk(Below(a, b), 0))
    ensures ImageOk(m) && ImageOk(m2) && Refers(m2.table, a, 0)
    ensures m2.table[1].id != 0 && m2.table[1].parent == m2.table[0].id
  {
    BlankParts(m);
    MakeAtRoot(m, a, 0, 0);
    var m1 := Step(m, Mk(Root(a), 0));
    FirstWith(m1.table, 0, 1);
    hide Step, Lookup, FileSlot, IdsOk;
    ChildMade(m1, a, b);
    m2 := Step(m1, Mk(Below(a, b), 0));
  }

  /** From a formatted volume: "/a" is made as a file, "/a/b" below it, and "/a" is removed. All three calls
      succeed and leave an orphan. */
  lemma OrphanMade(m: Image, a: byte, b: byte) returns (m': Image)
    requires Blank(m) && RootName(a) && RootName(b)
    ensures AllLegal([Mk(Root(a), 0), Mk(Below(a, b), 0), Rm(Root(a), 0)])
    ensures m' == Run(m, [Mk(Root(a), 0), Mk(Below(a, b), 0), Rm(Root(a), 0)])
    ensures !Tree.NoOrphans(m'.table)
  {
    hide Step, Run, Refers, Legal, Blank, ImageOk, RootName, Tree.NoOrphans;
    var m2 := RootAndChild(m, a, b);
    OrphanLeft(m2, a);
    assert Legal(Rm(Root(a), 0)) by { WritesLegal(a, a, [], []); }
    m' := Step(m2, Rm(Root(a), 0));
    RunThree(m, Mk(Root(a), 0), Mk(Below(a, b), 0), Rm(Root(a), 0));
  }

  // ---------------------------------------------------------------- a directory in a directory

  lemma PrefixFits(ws: Words, w: seq<byte>)
    ensures |PathFrom(ws)| <= |PathFrom(ws + [w])|
  {
    JoinLast(ws, w);
  }

  /** Making the directories of a path from the top down. */
  function Mkdirs(ws: Words): seq<Call> {
    if ws == [] then [] else Mkdirs(ws[..|ws| - 1]) + [Mkdir(PathFrom(ws), 0)]
  }

  /** The directories of `ws`, one in the other, with ids 1, 2, ..., and nothing else. */
  ghost predicate Nested(m: Image, ws: Words) {
    && ImageOk(m) && AreWords(ws) && m.lastId == |ws| <= TABLE_ENTRIES
    && (forall j :: |ws| <= j < TABLE_ENTRIES ==> m.table[j] == FreeSlot())
    && (forall j :: 0 <= j < |ws| ==> DirIs(m.table[j], j, ws[j]))
  }

  /** Entry `e` is the directory `w` in the directory with id `j`. */
  predicate DirIs(e: Entry, j: nat, w: seq<byte>) {
    e.id == j + 1 && e.parent == j && e.kind == DIRECTORY && NameOfEntry(e) == w && |w| <= 23
  }

  lemma LookupNested(m: Image, ws: Words, i: nat)
    requires Nested(m, ws) && i < |ws|
    ensures Lookup(m.table, ws[i], i) == i + 1
  {
    var t, w := m.table, ws[i];
    assert IsWord(w);
    forall j | 0 <= j < |t|
      ensures Matches(t[j], w, i) <==> j == i
    {
      if j >= |ws| {
        FreeNameEmpty(t[j]);
      } else {
        assert DirIs(t[j], j, ws[j]);
      }
      MatchIs(t[j], w, i);
    }
    FirstMatch(t, w, i, i);
  }

  lemma {:induction false} WalkNested(m: Image, ws: Words, i: nat)
    requires Nested(m, ws) && i <= |ws|
    ensures Walk(m.table, ws[..i], 0) == i
  {
    hide ImageOk, DirIs, AreWords, Lookup;
    if i > 0 {
      WalkNested(m, ws, i - 1);
      LookupNested(m, ws, i - 1);
      assert ws[..i] == ws[..i - 1] + [ws[i - 1]];
      WalkAppend(m.table, ws[..i - 1], ws[i - 1], 0);
    }
  }

  lemma NestedMore(m: Image, ws: Words, w: seq<byte>) returns (m': Image)
    requires Nested(m, ws) && |ws| < TABLE_ENTRIES && IsWord(w) && 0 !in w && |w| <= 23 && |PathFrom(ws + [w])| <= 1023
    ensures Legal(Mkdir(PathFrom(ws + [w]), 0)) && m' == Step(m, Mkdir(PathFrom(ws + [w]), 0)) && Nested(m', ws + [w])
    ensures MkDir(m, PathFrom(ws + [w]), 0).1 == 0
  {
    hide Walk, ImageOk, SlotWith, MkDir, PathFrom, LastName, Nested, AreWords, Outcomes.Added;
    NestedParts(m, ws);
    Outcomes.MkDirOutcome(m, ws, w, 0);
    m' := Step(m, Mkdir(PathFrom(ws + [w]), 0));
    NestedWith(m, ws, w, m');
  }

  lemma NestedParts(m: Image, ws: Words)
    requires Nested(m, ws) && |ws| < TABLE_ENTRIES
    ensures ImageOk(m) && AreWords(ws) && m.lastId == |ws| && Walk(m.table, ws, 0) == |ws|
    ensures SlotWith(m.table, 0) == Some(|ws|)
  {
    assert ws[..|ws|] == ws;
    WalkNested(m, ws, |ws|);
    FirstWith(m.table, 0, |ws|);
  }

  lemma NestedWith(m: Image, ws: Words, w: seq<byte>, m': Image)
    requires Nested(m, ws) && SlotWith(m.table, 0) == Some(|ws|) && ImageOk(m') && IsWord(w) && |w| <= 23
    requires Outcomes.Added(m, m'.table, |ws|, w, 3, 4, 0, 0) && m'.lastId == |ws| + 1
    ensures Nested(m', ws + [w])
  {
    hide IdsOk, GridOk, EntriesOk, MaxId, NameOfEntry;
  }

  /** From an empty volume the directories of any path can be made from the top down; every call succeeds. */
  lemma {:induction false} NestedMade(m: Image, ws: Words) returns (m': Image)
    requires Nested(m, []) && |ws| <= TABLE_ENTRIES && |PathFrom(ws)| <= 1023
    requires forall w :: w in ws ==> IsWord(w) && 0 !in w && |w| <= 23
    ensures AllLegal(Mkdirs(ws)) && m' == Run(m, Mkdirs(ws)) && Nested(m', ws)
    decreases |ws|
  {
    if ws == [] {
      m' := m;
    } else {
      var init, w := ws[..|ws| - 1], ws[|ws| - 1];
      assert ws == init + [w];
      PrefixFits(init, w);
      var m1 := NestedMade(m, init);
      m' := NestedMore(m1, init, w);
      hide Step, Run, Legal, ImageOk, Nested, PathFrom, AreWords;
      RunOne(m1, Mkdir(PathFrom(ws), 0));
      RunOn(m, Mkdirs(init), [Mkdir(PathFrom(ws), 0)]);
    }
  }

  /** And then every one of them is found by its path. */
  lemma NestedFound(m: Image, ws: Words, i: nat)
    requires Nested(m, ws) && |PathFrom(ws)| <= 1023 && i <= |ws|
    ensures PathToId(m.table, PathFrom(ws[..i]), 0) == i
    ensures i > 0 ==> m.table[i - 1].id == i && m.table[i - 1].kind == DIRECTORY
  {
    WalkNested(m, ws, i);
    ShorterFits(ws, i);
    SplitAbsolute(ws[..i]);
    if i > 0 { assert DirIs(m.table[i - 1], i - 1, ws[i - 1]); }
  }

  lemma {:induction false} ShorterFits(ws: Words, i: nat)
    requires i <= |ws|
    ensures |PathFrom(ws[..i])| <= |PathFrom(ws)|
    decreases |ws|
  {
    if i < |ws| {
      var init := ws[..|ws| - 1];
      assert ws == init + [ws[|ws| - 1]] && init[..i] == ws[..i];
      PrefixFits(init, ws[|ws| - 1]);
      ShorterFits(init, i);
    } else {
      assert ws[..i] == ws;
    }
  }

  lemma BareNested(m: Image)
    requires Bare(m)
    ensures Nested(m, [])
  {
  }

  lemma NestedOrdered(m: Image, ws: Words)
    requires Nested(m, ws)
    ensures Order.Ordered(m.table)
  {
    hide IdsOk, GridOk, EntriesOk, MaxId, DirIs, Order.Ordered;
    LadderOrdered(m.table, ws);
  }

  lemma LadderOrdered(t: seq<Entry>, ws: Words)
    requires |ws| <= |t| && AreWords(ws) && forall j :: |ws| <= j < |t| ==> t[j] == FreeSlot()
    requires forall j :: 0 <= j < |ws| ==> DirIs(t[j], j, ws[j])
    ensures Order.Ordered(t)
  {
    hide NameOfEntry, IsWord;
    forall j | 0 < j < |ws|
      ensures Tree.Live(t, t[j].parent)
    {
      assert DirIs(t[j - 1], j - 1, ws[j - 1]) && DirIs(t[j], j, ws[j]);
      assert t[j - 1].id == t[j].parent;
    }
    forall j | 0 <= j < |ws|
      ensures IsWord(ws[j]) && DirIs(t[j], j, ws[j])
    {
      assert ws[j] in ws;
    }
  }

  /** A directory made in "/x" can be called "..". Going up from it by its path comes to the root and not to "/x". */
  lemma DotDotNamed(m: Image, x: byte, cur: u64)
    requires Nested(m, [[x], [DOT, DOT]])
    ensures IdsOk(m.table) && m.table[1].parent == 1 && PathOf(m.table, 2) == [SLASH, x, SLASH, DOT, DOT]
    ensures PathToId(m.table, Resolve(PathOf(m.table, 2) + [SLASH, DOT, DOT]), cur) != 1
  {
    var ws: Words, t := [[x], [DOT, DOT]], m.table;
    assert DirIs(t[0], 0, ws[0]) && DirIs(t[1], 1, ws[1]);
    NestedOrdered(m, ws);
    SlotIs(t, 0);
    SlotIs(t, 1);
    hide ImageOk, Order.Ordered, IdsOk;
    NamesOfTwo(t, x);
    Order.UpIsParent(t, 1, cur);
  }

  lemma NamesOfTwo(t: seq<Entry>, x: byte)
    requires IdsOk(t) && |t| >= 2 && SlotWith(t, 1) == Some(0) && SlotWith(t, 2) == Some(1)
    requires t[0].parent == 0 && NameOfEntry(t[0]) == [x] && t[1].parent == 1 && NameOfEntry(t[1]) == [DOT, DOT]
    ensures NamesTo(t, 2) == [[x], [DOT, DOT]] && PathOf(t, 2) == [SLASH, x, SLASH, DOT, DOT]
    ensures !AreNames(NamesTo(t, 2))
  {
    hide IdsOk, NameOfEntry, SlotWith, Join, AreNames;
    JoinOfTwo(x);
    assert NamesTo(t, 1) == [NameOfEntry(t[0])];
    assert NamesTo(t, 2) == [NameOfEntry(t[0])] + [NameOfEntry(t[1])];
  }

  lemma JoinOfTwo(x: byte)
    ensures Join([[x], [DOT, DOT]]) == [x, SLASH, DOT, DOT] && !AreNames([[x], [DOT, DOT]])
  {
    var both, two: Words := [[x], [DOT, DOT]], [[DOT, DOT]];
    assert both[1..] == two && Join(two) == [DOT, DOT];
    assert both[1] in both;
  }
}
