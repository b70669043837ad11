/** Live files never share storage: the chains of a run, and what each call does to them. */
module Separation {
  import opened Bytes
  import opened Regions
  import opened Chains
  import opened Entries
  import opened Disk
  import FileData
  import Table
  import opened Names
  import opened PathNames
  import opened FileSystem

  /** `ch` is the sound chain of file `e`, short enough for a removal to free it all. */
  ghost predicate ChainOk(st: Store, e: Entry, ch: seq<nat>) {
    Sound(st, REGION, ch) && ch[0] == e.frame && |ch| <= FreeCount(e.size, REGION)
  }

  /** `cs[k]` is the chain of the file in slot `k`; chains of different files have no region in common. */
  ghost predicate Chained(st: Store, t: seq<Entry>, cs: seq<seq<nat>>) {
    && |cs| == |t|
    && (forall k :: 0 <= k < |t| && IsFile(t[k]) ==> ChainOk(st, t[k], cs[k]))
    && (forall j, k :: 0 <= j < k < |t| && IsFile(t[j]) && IsFile(t[k]) ==> Apart(cs[j], cs[k]))
  }

  /** The files' chains `cs` are sound and disjoint, and every free region ends its chain. */
  ghost predicate SepOk(m: Image, cs: seq<seq<nat>>) {
    ImageOk(m) && FreeEnds(m.store, REGION) && Chained(m.store, m.table, cs)
  }

  /** Some assignment of chains to files exists. */
  ghost predicate Separated(m: Image) {
    exists cs :: SepOk(m, cs)
  }

  lemma ApartSym(a: seq<nat>, b: seq<nat>)
    requires Apart(a, b)
    ensures Apart(b, a)
  {
  }

  lemma ApartOf(st: Store, t: seq<Entry>, cs: seq<seq<nat>>, j: nat, k: nat)
    requires Chained(st, t, cs) && j < |t| && k < |t| && j != k && IsFile(t[j]) && IsFile(t[k])
    ensures Apart(cs[j], cs[k])
  {
    if k < j { ApartSym(cs[k], cs[j]); }
  }

  /** A chain survives any change that leaves its sectors and its bits alone. */
  lemma ChainKept(st: Store, st': Store, e: Entry, ch: seq<nat>)
    requires ChainOk(st, e, ch) && GridOk(st', REGION) && FreeEnds(st', REGION)
    requires SameOn(st, st', REGION, ch) && Taken(st'.bits, ch)
    ensures ChainOk(st', e, ch)
  {
    SameChain(st, st', REGION, ch, 0);
  }

  /** Replacing slot `k` of the table, its chain, and the store. */
  lemma ChainedUpdate(st: Store, t: seq<Entry>, cs: seq<seq<nat>>, st': Store, k: nat, e: Entry, ch: seq<nat>)
    requires Chained(st, t, cs) && k < |t|
    requires forall j :: 0 <= j < |t| && j != k && IsFile(t[j]) ==> ChainOk(st', t[j], cs[j])
    requires IsFile(e) ==> ChainOk(st', e, ch)
    requires IsFile(e) ==> forall j :: 0 <= j < |t| && j != k && IsFile(t[j]) ==> Apart(ch, cs[j])
    ensures Chained(st', t[k := e], cs[k := ch])
  {
    var t', cs' := t[k := e], cs[k := ch];
    forall i, j | 0 <= i < j < |t| && IsFile(t'[i]) && IsFile(t'[j])
      ensures Apart(cs'[i], cs'[j])
    {
      if j == k { ApartSym(ch, cs[i]); }
    }
  }

  // ---------------------------------------------------------------- mk

  lemma MkFreeEnds(st: Store, f: nat)
    requires GridOk(st, REGION) && FreeEnds(st, REGION) && FirstFit(st.bits, REGION) == Some(f)
    ensures var st' := st.(bits := Mark(st.bits, f, REGION, true));
      && Sound(st', REGION, [f]) && InGrid(|st.bits|, REGION, f) && !st.bits[f]
  {
    FirstFitOnGrid(st.bits, REGION);
    FreshSound(st, REGION, f);
  }

  lemma MkFileSeparated(m: Image, cs: seq<seq<nat>>, p: seq<byte>, cur: u64) returns (cs': seq<seq<nat>>)
    requires SepOk(m, cs) && |LastName(p)| <= 23
    ensures SepOk(MkFile(m, p, cur).0, cs')
    ensures cs' == match Table.SlotWith(m.table, 0)
                   case None => cs
                   case Some(k) =>
                     if MkFile(m, p, cur).1 != 0 then cs else cs[k := [FirstFit(m.store.bits, REGION).value]]
  {
    cs' := cs;
    MkFileKeepsOk(m, p, cur);
    if MkFile(m, p, cur).1 == 0 {
      var f := FirstFit(m.store.bits, REGION).value;
      var st' := m.store.(bits := Mark(m.store.bits, f, REGION, true));
      MkFreeEnds(m.store, f);
      forall j | 0 <= j < |m.table| && IsFile(m.table[j])
        ensures ChainOk(st', m.table[j], cs[j]) && Apart([f], cs[j])
      {
        ChainKept(m.store, st', m.table[j], cs[j]);
      }
      match Table.SlotWith(m.table, 0)
      case None =>
      case Some(k) =>
        ChainedUpdate(m.store, m.table, cs, st', k, FileEntry(m, p, cur, f), [f]);
        cs' := cs[k := [f]];
    }
  }

  // ---------------------------------------------------------------- write

  lemma WriteSeparated(m: Image, cs: seq<seq<nat>>, id: u64, data: seq<byte>) returns (cs': seq<seq<nat>>)
    requires SepOk(m, cs) && |data| + 7 < U64
    ensures SepOk(WriteById(m, id, data).0, cs')
    ensures cs' == match FileSlot(m.table, id)
                   case None => cs
                   case Some(k) =>
                     var vis := WriteFrom(m.store, REGION, m.table[k].frame, data).visited;
                     cs[k := vis[..Cut(vis)]]
  {
    cs' := cs;
    WriteKeepsOk(m, id, data);
    match FileSlot(m.table, id)
    case None =>
    case Some(k) =>
      var e, ch := m.table[k], cs[k];
      var w := WriteFrom(m.store, REGION, e.frame, data);
      WriteLinked(m.store, REGION, ch, data);
      WriteCounted(m.store, REGION, ch, data);
      WriteVisits(m.store, REGION, ch, data);
      var ch' := w.visited[..Cut(w.visited)];
      forall j | 0 <= j < |m.table| && j != k && IsFile(m.table[j])
        ensures ChainOk(w.store, m.table[j], cs[j]) && Apart(ch', cs[j])
      {
        ApartOf(m.store, m.table, cs, k, j);
        WriteKeepsOthers(m.store, REGION, ch, data, cs[j], 0);
      }
      ChainedUpdate(m.store, m.table, cs, w.store, k, e.(size := w.size), ch');
      cs' := cs[k := ch'];
  }

  /** A write leaves the bytes of every other file as they were. */
  lemma WriteKeepsOtherFiles(m: Image, cs: seq<seq<nat>>, id: u64, data: seq<byte>, j: nat, n: nat)
    requires SepOk(m, cs) && |data| + 7 < U64
    requires j < TABLE_ENTRIES && IsFile(m.table[j]) && FileSlot(m.table, id) != Some(j)
    ensures var m' := WriteById(m, id, data).0;
      ImageOk(m') && m'.table[j] == m.table[j] && Contents(m', m.table[j], n) == Contents(m, m.table[j], n)
  {
    WriteKeepsOk(m, id, data);
    match FileSlot(m.table, id)
    case None =>
    case Some(k) =>
      ApartOf(m.store, m.table, cs, k, j);
      WriteKeepsOthers(m.store, REGION, cs[k], data, cs[j], Min(m.table[j].size, n));
  }

  // ---------------------------------------------------------------- rm

  lemma ClearedEnds(st: Store, n: nat, ch: seq<nat>, bits: seq<bool>)
    requires Sound(st, n, ch) && Cleared(st.bits, bits, n, ch) && GridOk(st.(bits := bits), n)
    ensures FreeEnds(st.(bits := bits), n) <==> |ch| == 1
  {
    var st' := st.(bits := bits);
    LinkedInGrid(st, n, ch);
    assert ch[0] in ch && Next(st', n, ch[0]) == Next(st, n, ch[0]);
    GroupOf(ch[0], n, ch[0]);
    if |ch| == 1 {
      forall q: nat | InGrid(|bits|, n, q) && !bits[q]
        ensures IsEnd(Next(st', n, q))
      {
        GroupOf(q, n, q);
        assert Next(st', n, q) == Next(st, n, q);
        assert st.bits[q] ==> q == ch[0];
      }
    }
  }

  /** After a removal every free region still ends its chain exactly when the file had one region. */
  lemma FreeEndsAfterFree(st: Store, e: Entry, ch: seq<nat>)
    requires ChainOk(st, e, ch) && e.regionSize == REGION
    ensures var st' := FileData.FreeEntry(st, e);
      && GridOk(st', REGION) && Cleared(st.bits, st'.bits, REGION, ch)
      && (FreeEnds(st', REGION) <==> |ch| == 1)
  {
    var st' := FileData.FreeEntry(st, e);
    FreeKeepsGrid(st, REGION, e.frame, FreeCount(e.size, REGION), st.bits);
    FreeExact(st, REGION, ch, FreeCount(e.size, REGION), st.bits);
    ClearedEnds(st, REGION, ch, st'.bits);
  }

  lemma ClearedTaken(bits: seq<bool>, bits': seq<bool>, n: nat, ch: seq<nat>, other: seq<nat>)
    requires n > 0 && Cleared(bits, bits', n, ch) && Taken(bits, other) && Apart(other, ch)
    requires forall q :: q in other ==> OnGrid(q, n)
    ensures Taken(bits', other)
  {
    forall q | q in other
      ensures bits'[q]
    {
      GroupOf(q, n, q);
    }
  }

  /** Removing a file of one region keeps the files apart; its bits, and only they, are cleared. */
  lemma RmFileSeparated(m: Image, cs: seq<seq<nat>>, k: nat) returns (cs': seq<seq<nat>>)
    requires SepOk(m, cs) && k < TABLE_ENTRIES && IsFile(m.table[k])
    requires IsEnd(Next(m.store, REGION, m.table[k].frame))
    ensures SepOk(RmFileById(m, m.table[k].id).0, cs') && cs' == cs[k := []]
  {
    var e := m.table[k];
    SlotIs(m.table, k);
    RmFileKeepsOk(m, e.id);
    FreeEndsAfterFree(m.store, e, cs[k]);
    var st' := FileData.FreeEntry(m.store, e);
    forall j | 0 <= j < |m.table| && j != k && IsFile(m.table[j])
      ensures ChainOk(st', m.table[j], cs[j])
    {
      ApartOf(m.store, m.table, cs, j, k);
      LinkedInGrid(m.store, REGION, cs[j]);
      ClearedTaken(m.store.bits, st'.bits, REGION, cs[k], cs[j]);
      ChainKept(m.store, st', m.table[j], cs[j]);
    }
    ChainedUpdate(m.store, m.table, cs, st', k, FreeSlot(), []);
    cs' := cs[k := []];
  }

  // ---------------------------------------------------------------- runs

  /** A removal in this run is of a file that has no second region. */
  ghost predicate OneRegion(m: Image, c: Call)
    requires ImageOk(m)
  {
    c.Rm? ==>
      match FileSlot(m.table, PathToId(m.table, c.path, c.cur))
      case None => true
      case Some(k) => IsEnd(Next(m.store, REGION, m.table[k].frame))
  }

  ghost predicate OneRegionRun(m: Image, cs: seq<Call>)
    requires ImageOk(m) && forall c :: c in cs ==> Legal(c)
    decreases |cs|
  {
    cs == [] || (OneRegion(m, cs[0]) && OneRegionRun(Step(m, cs[0]), cs[1..]))
  }

  lemma SameFiles(m: Image, m': Image, cs: seq<seq<nat>>)
    requires SepOk(m, cs) && ImageOk(m') && m'.store == m.store
    requires forall k :: 0 <= k < TABLE_ENTRIES && IsFile(m'.table[k]) ==> m'.table[k] == m.table[k]
    ensures SepOk(m', cs)
  {
  }

  /** The calls on directories touch no file. */
  lemma MkDirSeparated(m: Image, cs: seq<seq<nat>>, p: seq<byte>, cur: u64)
    requires SepOk(m, cs) && |LastName(p)| <= 23
    ensures SepOk(MkDir(m, p, cur).0, cs)
  {
    MkDirKeepsOk(m, p, cur);
    hide ParentOf, PathToAbs, NameField, LastName, Table.MaxId, FirstFit;
    SameFiles(m, MkDir(m, p, cur).0, cs);
  }

  lemma RmDirSeparated(m: Image, cs: seq<seq<nat>>, id: u64)
    requires SepOk(m, cs)
    ensures SepOk(RmDirById(m, id).0, cs)
  {
    RmDirKeepsOk(m, id);
    SameFiles(m, RmDirById(m, id).0, cs);
  }

  /** A removal keeps the invariant, free regions' pointers included, exactly when the file has one region. (The
      files that stay keep their regions and bytes in any case.) */
  lemma RmSeparated(m: Image, cs: seq<seq<nat>>, id: u64)
    requires SepOk(m, cs)
    ensures Separated(RmFileById(m, id).0) <==>
      match FileSlot(m.table, id) case None => true case Some(k) => IsEnd(Next(m.store, REGION, m.table[k].frame))
  {
    match FileSlot(m.table, id)
    case None =>
      assert SepOk(RmFileById(m, id).0, cs);
    case Some(k) =>
      if IsEnd(Next(m.store, REGION, m.table[k].frame)) {
        var cs' := RmFileSeparated(m, cs, k);
      } else {
        RmNotSeparated(m, cs, k);
      }
  }

  lemma RmNotSeparated(m: Image, cs: seq<seq<nat>>, k: nat)
    requires SepOk(m, cs) && k < TABLE_ENTRIES && IsFile(m.table[k])
    requires !IsEnd(Next(m.store, REGION, m.table[k].frame))
    ensures !Separated(RmFileById(m, m.table[k].id).0)
  {
    SlotIs(m.table, k);
    FreeEndsAfterFree(m.store, m.table[k], cs[k]);
  }

  lemma CopySeparated(m: Image, cs: seq<seq<nat>>, src: seq<byte>, dst: seq<byte>, cur: u64) returns (cs': seq<seq<nat>>)
    requires ImageOk(m) && SepOk(m, cs) && |LastName(dst)| <= 23
    ensures SepOk(CopyFile(m, src, dst, cur).0, cs')
  {
    CopyParts(m, src, dst, cur);
    CopyTargetParts(m, dst, cur);
    var m1 := CopyTarget(m, dst, cur).0;
    var d := CopyBytesParts(m1, src, dst, CopySize(m, src, cur), cur);
    hide CopyFile, CopyTarget, CopyBytes, CopySize, IdOf, SepOk, WriteById, MkFile, GridOk;
    var cs1 := cs;
    if m1 != m { cs1 := MkFileSeparated(m, cs, dst, cur); }
    var cs2 := WriteSeparated(m1, cs1, IdOf(m1.table, dst, cur), d);
    var m' := CopyFile(m, src, dst, cur).0;
    cs' := if m' == m then cs else if m' == m1 then cs1 else cs2;
  }

  /** One call keeps the invariant exactly when it does not remove a file of several regions. */
  lemma StepSeparated(m: Image, c: Call)
    requires ImageOk(m) && Separated(m) && Legal(c)
    ensures Separated(Step(m, c)) <==> OneRegion(m, c)
  {
    hide SepOk, MkFile, MkDir, WriteById, RmFileById, RmDirById, CopyFile;
    var cs :| SepOk(m, cs);
    match c
    case Mk(p, cur) =>
      var cs' := MkFileSeparated(m, cs, p, cur);
    case Mkdir(p, cur) =>
      MkDirSeparated(m, cs, p, cur);
    case Write(p, data, cur) =>
      var cs' := WriteSeparated(m, cs, IdOf(m.table, p, cur), data);
    case Rm(p, cur) =>
      RmSeparated(m, cs, PathToId(m.table, p, cur));
    case Rmdir(p, cur) =>
      RmDirSeparated(m, cs, PathToId(m.table, p, cur));
    case Copy(src, dst, cur) =>
      var cs' := CopySeparated(m, cs, src, dst, cur);
    case Mount =>
      RemountChangesNothing(m);
  }

  /** Over every run that removes only one-region files, live files never share a region. */
  lemma {:induction false} RunSeparated(m: Image, cs: seq<Call>)
    requires ImageOk(m) && Separated(m) && forall c :: c in cs ==> Legal(c)
    requires OneRegionRun(m, cs)
    ensures Separated(Run(m, cs))
    decreases |cs|
  {
    if cs != [] {
      StepSeparated(m, cs[0]);
      RunSeparated(Step(m, cs[0]), cs[1..]);
    }
  }

  /** Every state of the run satisfies the invariant. */
  ghost predicate SeparatedThroughout(m: Image, cs: seq<Call>)
    requires ImageOk(m) && forall c :: c in cs ==> Legal(c)
    decreases |cs|
  {
    Separated(m) && (cs != [] ==> SeparatedThroughout(Step(m, cs[0]), cs[1..]))
  }

  /** That is so exactly when the run removes only one-region files. */
  lemma {:induction false} RunSeparatedIff(m: Image, cs: seq<Call>)
    requires ImageOk(m) && Separated(m) && forall c :: c in cs ==> Legal(c)
    ensures SeparatedThroughout(m, cs) <==> OneRegionRun(m, cs)
    decreases |cs|
  {
    if cs != [] {
      StepSeparated(m, cs[0]);
      hide Separated, OneRegion, Step, Legal;
      if OneRegion(m, cs[0]) {
        RunSeparatedIff(Step(m, cs[0]), cs[1..]);
      } else {
        NotThroughout(Step(m, cs[0]), cs[1..]);
      }
    }
  }

  lemma NotThroughout(m: Image, cs: seq<Call>)
    requires ImageOk(m) && !Separated(m) && forall c :: c in cs ==> Legal(c)
    ensures !SeparatedThroughout(m, cs)
  {
  }
}
