/** A file that a run does not write, copy onto or remove keeps its entry and its bytes. */
module Spared {
  import opened Bytes
  import opened Regions
  import opened Disk
  import opened FileSystem
  import opened Separation
  import Names
  import Ownership
  import PathNames
  import Table
  import Transfers

  /** The file with this id is where it was, and a read of `n` bytes finds what it found. */
  ghost predicate Kept(m: Image, m': Image, id: u64, n: nat) {
    && ImageOk(m) && ImageOk(m') && FileSlot(m.table, id).Some?
    && FileSlot(m'.table, id) == FileSlot(m.table, id)
    && var k := FileSlot(m.table, id).value;
       m'.table[k] == m.table[k] && Contents(m', m.table[k], n) == Contents(m, m.table[k], n)
  }

  /** The id that a copy to `dst` writes to, once that exists. */
  ghost function CopiesOnto(m: Image, dst: seq<byte>, cur: u64): u64
    requires ImageOk(m) && |PathNames.LastName(dst)| <= 23
  {
    hide MkFile, GridOk, PathNames.LastName;
    PathNames.IdOf(CopyTarget(m, dst, cur).0.table, dst, cur)
  }

  /** The call does not write to the file, copy onto it or remove it. */
  ghost predicate Spares(m: Image, c: Call, id: u64)
    requires ImageOk(m) && Legal(c)
  {
    match c
    case Write(p, _, cur) => PathNames.IdOf(m.table, p, cur) != id
    case Rm(p, cur) => Names.PathToId(m.table, p, cur) != id
    case Copy(_, dst, cur) => CopiesOnto(m, dst, cur) != id
    case _ => true
  }

  lemma InSlot(m: Image, m': Image, id: u64, k: nat)
    requires ImageOk(m') && k < TABLE_ENTRIES && |m.table| == TABLE_ENTRIES && FileSlot(m.table, id) == Some(k)
    requires m'.table[k] == m.table[k]
    ensures FileSlot(m'.table, id) == Some(k)
  {
    Names.SlotIs(m'.table, k);
  }

  /** Calls that leave storage and bitmap alone. */
  lemma SameStore(m: Image, m': Image, id: u64, n: nat)
    requires ImageOk(m) && ImageOk(m') && FileSlot(m.table, id).Some? && m'.store == m.store
    requires m'.table[FileSlot(m.table, id).value] == m.table[FileSlot(m.table, id).value]
    ensures Kept(m, m', id, n)
  {
    InSlot(m, m', id, FileSlot(m.table, id).value);
  }

  lemma MkSpares(m: Image, cs: seq<seq<nat>>, p: seq<byte>, cur: u64, id: u64, n: nat)
    requires SepOk(m, cs) && |PathNames.LastName(p)| <= 23 && FileSlot(m.table, id).Some?
    ensures Kept(m, MkFile(m, p, cur).0, id, n)
  {
    MkFileKeepsOk(m, p, cur);
    Transfers.MkKeepsSlot(m, p, cur, id);
    Transfers.MkKeepsContents(m, cs, p, cur, FileSlot(m.table, id).value, n);
  }

  lemma MkdirSpares(m: Image, p: seq<byte>, cur: u64, id: u64, n: nat)
    requires ImageOk(m) && |PathNames.LastName(p)| <= 23 && FileSlot(m.table, id).Some?
    ensures Kept(m, MkDir(m, p, cur).0, id, n)
  {
    MkDirKeepsOk(m, p, cur);
    hide GridOk, Names.IdsOk, EntriesOk, Table.MaxId;
    SameStore(m, MkDir(m, p, cur).0, id, n);
  }

  lemma WriteSpares(m: Image, cs: seq<seq<nat>>, other: u64, data: seq<byte>, id: u64, n: nat)
    requires SepOk(m, cs) && |data| + 7 < U64 && FileSlot(m.table, id).Some? && other != id
    ensures Kept(m, WriteById(m, other, data).0, id, n)
  {
    var k := FileSlot(m.table, id).value;
    WriteKeepsOtherFiles(m, cs, other, data, k, n);
    InSlot(m, WriteById(m, other, data).0, id, k);
  }

  lemma RmSpares(m: Image, cs: seq<seq<nat>>, other: u64, id: u64, n: nat)
    requires SepOk(m, cs) && FileSlot(m.table, id).Some? && other != id
    ensures Kept(m, RmFileById(m, other).0, id, n)
  {
    var k := FileSlot(m.table, id).value;
    RmFileKeepsOk(m, other);
    Ownership.SeparatedMeans(m, cs);
    match FileSlot(m.table, other)
    case None =>
    case Some(j) =>
      Ownership.RmKeepsOthers(m, cs, j, k, n);
      InSlot(m, RmFileById(m, other).0, id, k);
  }

  lemma RmdirSpares(m: Image, other: u64, id: u64, n: nat)
    requires ImageOk(m) && FileSlot(m.table, id).Some?
    ensures Kept(m, RmDirById(m, other).0, id, n)
  {
    RmDirKeepsOk(m, other);
    SameStore(m, RmDirById(m, other).0, id, n);
  }

  lemma KeptTwice(m: Image, m1: Image, m2: Image, id: u64, n: nat)
    requires Kept(m, m1, id, n) && Kept(m1, m2, id, n)
    ensures Kept(m, m2, id, n)
  {
  }

  lemma CopySpares(m: Image, cs: seq<seq<nat>>, src: seq<byte>, dst: seq<byte>, cur: u64, id: u64, n: nat)
    requires ImageOk(m) && SepOk(m, cs) && |PathNames.LastName(dst)| <= 23 && FileSlot(m.table, id).Some?
    requires CopiesOnto(m, dst, cur) != id
    ensures Kept(m, CopyFile(m, src, dst, cur).0, id, n)
  {
    CopyParts(m, src, dst, cur);
    CopyTargetParts(m, dst, cur);
    MkSpares(m, cs, dst, cur, id, n);
    var m1 := CopyTarget(m, dst, cur).0;
    var d := CopyBytesParts(m1, src, dst, CopySize(m, src, cur), cur);
    var cs1 := cs;
    if m1 != m { cs1 := MkFileSeparated(m, cs, dst, cur); }
    hide CopyFile, CopyTarget, CopyBytes, CopySize, MkFile, WriteById, SepOk;
    WriteSpares(m1, cs1, PathNames.IdOf(m1.table, dst, cur), d, id, n);
    KeptTwice(m, m1, WriteById(m1, PathNames.IdOf(m1.table, dst, cur), d).0, id, n);
  }

  lemma StepSpares(m: Image, c: Call, id: u64, n: nat)
    requires ImageOk(m) && Separated(m) && Legal(c) && Spares(m, c, id) && FileSlot(m.table, id).Some?
    ensures Kept(m, Step(m, c), id, n)
  {
    hide SepOk, MkFile, MkDir, WriteById, RmFileById, RmDirById, CopyFile, Kept;
    var cs :| SepOk(m, cs);
    match c
    case Mk(p, cur) => MkSpares(m, cs, p, cur, id, n);
    case Mkdir(p, cur) => MkdirSpares(m, p, cur, id, n);
    case Write(p, data, cur) => WriteSpares(m, cs, PathNames.IdOf(m.table, p, cur), data, id, n);
    case Rm(p, cur) => RmSpares(m, cs, Names.PathToId(m.table, p, cur), id, n);
    case Rmdir(p, cur) => RmdirSpares(m, Names.PathToId(m.table, p, cur), id, n);
    case Copy(src, dst, cur) => CopySpares(m, cs, src, dst, cur, id, n);
    case Mount =>
      RemountChangesNothing(m);
      SameStore(m, m, id, n);
  }

  ghost predicate SparesRun(m: Image, cs: seq<Call>, id: u64)
    requires ImageOk(m) && forall c :: c in cs ==> Legal(c)
    decreases |cs|
  {
    cs == [] || (Spares(m, cs[0], id) && SparesRun(Step(m, cs[0]), cs[1..], id))
  }

  /** Over every run that removes only one-region files, a file that no call writes to, copies onto or removes
      reads as it did. */
  lemma {:induction false} RunSpares(m: Image, cs: seq<Call>, id: u64, n: nat)
    requires ImageOk(m) && Separated(m) && forall c :: c in cs ==> Legal(c)
    requires OneRegionRun(m, cs) && SparesRun(m, cs, id) && FileSlot(m.table, id).Some?
    ensures Kept(m, Run(m, cs), id, n)
    decreases |cs|
  {
    if cs == [] {
      SameStore(m, m, id, n);
    } else {
      var m1 := Step(m, cs[0]);
      StepSpares(m, cs[0], id, n);
      StepSeparated(m, cs[0]);
      assert FileSlot(m1.table, id).Some?;
      hide Kept, Step, Separated, OneRegion, Spares, Legal;
      RunSpares(m1, cs[1..], id, n);
      KeptTwice(m, m1, Run(m1, cs[1..]), id, n);
    }
  }
}
