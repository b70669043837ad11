/** When the table is a tree: every entry's parent is the root or a live entry. */
module Tree {
  import opened Bytes
  import Regions
  import opened Entries
  import opened Disk
  import opened Table
  import opened Paths
  import opened Names
  import opened PathNames
  import FileData
  import opened FileSystem

  ghost predicate Live(t: seq<Entry>, id: u64) {
    exists k :: 0 <= k < |t| && t[k].id == id != 0
  }

  /** No entry is an orphan. */
  ghost predicate NoOrphans(t: seq<Entry>) {
    forall k :: 0 <= k < |t| && t[k].id != 0 && t[k].parent != 0 ==> Live(t, t[k].parent)
  }

  /** Without orphans every live entry has live ancestors all the way to the root. */
  lemma {:induction false} AllRooted(t: seq<Entry>, k: nat)
    requires IdsOk(t) && NoOrphans(t) && k < |t| && t[k].id != 0
    ensures Rooted(t, t[k].id)
    decreases t[k].id
  {
    SlotIs(t, k);
    if t[k].parent != 0 {
      var j :| 0 <= j < |t| && t[j].id == t[k].parent != 0;
      AllRooted(t, j);
    }
  }

  lemma NoNames(t: seq<Entry>, id: u64)
    requires IdsOk(t) && id != 0 && !Live(t, id)
    ensures NamesTo(t, id) == [] && PathOf(t, id) == [SLASH]
  {
    assert SlotWith(t, id) == None;
  }

  /** An orphan prints as if it were in the root directory, and an id without an entry as the root. */
  lemma OrphanPath(t: seq<Entry>, k: nat, id: u64)
    requires IdsOk(t) && k < |t| && t[k].id != 0 && t[k].parent != 0 && !Live(t, t[k].parent)
    ensures PathOf(t, t[k].id) == [SLASH] + NameOfEntry(t[k])
    ensures id != 0 && !Live(t, id) ==> PathOf(t, id) == [SLASH]
  {
    SlotIs(t, k);
    NoNames(t, t[k].parent);
    var w := NameOfEntry(t[k]);
    assert NamesTo(t, t[k].id) == [] + [w] == [w] && Join([w]) == w;
    if id != 0 && !Live(t, id) { NoNames(t, id); }
  }

  // ---------------------------------------------------------------- creation

  lemma LookupLive(t: seq<Entry>, w: seq<byte>, parent: u64)
    requires IdsOk(t) && w != []
    ensures Lookup(t, w, parent) == NOT_FOUND || Live(t, Lookup(t, w, parent))
  {
    match SlotNamed(t, w, parent)
    case None =>
    case Some(k) =>
      if t[k].id == 0 { FreeNameEmpty(t[k]); }
  }

  lemma {:induction false} WalkLive(t: seq<Entry>, ws: Words, from: u64)
    requires IdsOk(t) && AreWords(ws)
    requires from == 0 || from == NOT_FOUND || Live(t, from)
    ensures var id := Walk(t, ws, from); id == 0 || id == NOT_FOUND || Live(t, id)
    decreases |ws|
  {
    if ws != [] {
      assert IsWord(ws[0]);
      LookupLive(t, ws[0], from);
      WalkLive(t, ws[1..], Lookup(t, ws[0], from));
    }
  }

  /** The directory a creation goes into is the root or live, whatever the current directory. */
  lemma ParentLive(t: seq<Entry>, p: seq<byte>, cur: u64)
    requires IdsOk(t)
    ensures var parent := ParentOf(t, PathToAbs(t, p, cur), cur); parent == 0 || parent == NOT_FOUND || Live(t, parent)
  {
    AbsoluteParent(t, p, cur);
    var q := StripSlashes(Truncated(PathToAbs(t, p, cur)));
    var l := LastSlash(q);
    if l > 0 {
      SplitWords(Truncated(q[..l]));
      WalkLive(t, Split(Truncated(q[..l])), 0);
    }
  }

  lemma AddKeepsTree(t: seq<Entry>, e: Entry)
    requires Addable(t, e) && NoOrphans(t) && (e.parent == 0 || Live(t, e.parent))
    ensures NoOrphans(AddEntry(t, e))
  {
    var t', s := AddEntry(t, e), SlotWith(t, 0).value;
    forall k | 0 <= k < |t'| && t'[k].id != 0 && t'[k].parent != 0
      ensures Live(t', t'[k].parent)
    {
      var j :| 0 <= j < |t| && t[j].id == t'[k].parent != 0;
      assert t'[j] == t[j];
    }
  }

  lemma NewEntryKeepsTree(m: Image, p: seq<byte>, cur: u64, e: Entry)
    requires ImageOk(m) && NoOrphans(m.table)
    requires e.parent == ParentOf(m.table, PathToAbs(m.table, p, cur), cur) != NOT_FOUND && e.id == NewId(m) != NOT_FOUND
    ensures NoOrphans(AddEntry(m.table, e))
  {
    if SlotWith(m.table, 0).Some? {
      NewParentBound(m, p, cur);
      LastIdBelow(m);
      NewEntryAddable(m.table, m.lastId, e);
      ParentLive(m.table, p, cur);
      AddKeepsTree(m.table, e);
    }
  }

  // ---------------------------------------------------------------- removal

  /** Erasing an entry orphans something exactly when it has children. */
  lemma EraseTree(t: seq<Entry>, k: nat)
    requires IdsOk(t) && NoOrphans(t) && k < |t| && t[k].id != 0
    ensures NoOrphans(t[k := FreeSlot()]) <==> !HasChildren(t, t[k].id)
  {
    var t' := t[k := FreeSlot()];
    assert !Live(t', t[k].id);
    if HasChildren(t, t[k].id) {
      var c :| 0 <= c < |t| && t[c].id != 0 && t[c].parent == t[k].id;
      assert t'[c] == t[c];
    } else {
      forall c | 0 <= c < |t'| && t'[c].id != 0 && t'[c].parent != 0
        ensures Live(t', t'[c].parent)
      {
        var j :| 0 <= j < |t| && t[j].id == t[c].parent != 0;
        assert t'[j] == t[j];
      }
    }
  }

  // ---------------------------------------------------------------- runs

  /** A file removal in this step is of a file under which nothing was created. */
  ghost predicate Childless(m: Image, c: Call)
    requires ImageOk(m)
  {
    c.Rm? ==>
      match FileSlot(m.table, PathToId(m.table, c.path, c.cur))
      case None => true
      case Some(k) => !HasChildren(m.table, m.table[k].id)
  }

  lemma SizeOnly(t: seq<Entry>, k: nat, e: Entry)
    requires NoOrphans(t) && k < |t| && e.id == t[k].id && e.parent == t[k].parent
    ensures NoOrphans(t[k := e])
  {
    var t' := t[k := e];
    forall c | 0 <= c < |t'| && t'[c].id != 0 && t'[c].parent != 0
      ensures Live(t', t'[c].parent)
    {
      var j :| 0 <= j < |t| && t[j].id == t[c].parent != 0;
      assert t'[j].id == t[j].id;
    }
  }

  lemma MkTree(m: Image, p: seq<byte>, cur: u64)
    requires ImageOk(m) && |LastName(p)| <= 23 && NoOrphans(m.table)
    ensures NoOrphans(MkFile(m, p, cur).0.table)
  {
    if MkFile(m, p, cur).1 == 0 {
      NewEntryKeepsTree(m, p, cur, FileEntry(m, p, cur, Regions.FirstFit(m.store.bits, REGION).value));
    }
  }

  lemma MkdirTree(m: Image, p: seq<byte>, cur: u64)
    requires ImageOk(m) && |LastName(p)| <= 23 && NoOrphans(m.table)
    ensures NoOrphans(MkDir(m, p, cur).0.table)
  {
    if MkDir(m, p, cur).1 == 0 {
      NewEntryKeepsTree(m, p, cur, DirEntry(m, p, cur));
    }
  }

  lemma WriteTree(m: Image, id: u64, data: seq<byte>)
    requires ImageOk(m) && |data| < U64 && NoOrphans(m.table)
    ensures NoOrphans(WriteById(m, id, data).0.table)
  {
    match FileSlot(m.table, id)
    case None =>
    case Some(k) => SizeOnly(m.table, k, FileData.WriteEntry(m.store, m.table[k], data).1);
  }

  lemma RmTree(m: Image, id: u64)
    requires ImageOk(m) && NoOrphans(m.table)
    ensures NoOrphans(RmFileById(m, id).0.table) <==>
      match FileSlot(m.table, id) case None => true case Some(k) => !HasChildren(m.table, m.table[k].id)
  {
    match FileSlot(m.table, id)
    case None =>
    case Some(k) => EraseTree(m.table, k);
  }

  lemma RmdirTree(m: Image, id: u64)
    requires ImageOk(m) && NoOrphans(m.table)
    ensures NoOrphans(RmDirById(m, id).0.table)
  {
    if RmDirById(m, id).1 == 0 {
      EraseTree(m.table, SlotWith(m.table, id).value);
    }
  }

  lemma CopyTree(m: Image, src: seq<byte>, dst: seq<byte>, cur: u64)
    requires ImageOk(m) && |LastName(dst)| <= 23 && NoOrphans(m.table)
    ensures NoOrphans(CopyFile(m, src, dst, cur).0.table)
  {
    CopyParts(m, src, dst, cur);
    CopyTargetParts(m, dst, cur);
    MkTree(m, dst, cur);
    var m1 := CopyTarget(m, dst, cur).0;
    var d := CopyBytesParts(m1, src, dst, CopySize(m, src, cur), cur);
    hide CopyFile, CopyTarget, CopyBytes, CopySize, IdOf, NoOrphans, WriteById, MkFile;
    WriteTree(m1, IdOf(m1.table, dst, cur), d);
  }

  /** One call keeps the table a tree exactly when it does not remove a file that has children; removing
      directories never makes orphans. */
  lemma StepTree(m: Image, c: Call)
    requires ImageOk(m) && Legal(c) && NoOrphans(m.table)
    ensures NoOrphans(Step(m, c).table) <==> Childless(m, c)
  {
    hide NoOrphans, MkFile, MkDir, WriteById, RmFileById, RmDirById, CopyFile;
    match c
    case Mk(p, cur) => MkTree(m, p, cur);
    case Mkdir(p, cur) => MkdirTree(m, p, cur);
    case Write(p, data, cur) => WriteTree(m, IdOf(m.table, p, cur), data);
    case Rm(p, cur) => RmTree(m, PathToId(m.table, p, cur));
    case Rmdir(p, cur) => RmdirTree(m, PathToId(m.table, p, cur));
    case Copy(src, dst, cur) => CopyTree(m, src, dst, cur);
    case Mount =>
  }

  ghost predicate ChildlessRun(m: Image, cs: seq<Call>)
    requires ImageOk(m) && forall c :: c in cs ==> Legal(c)
    decreases |cs|
  {
    cs == [] || (Childless(m, cs[0]) && ChildlessRun(Step(m, cs[0]), cs[1..]))
  }

  /** Over every run that removes no file with children, the table stays a tree. */
  lemma {:induction false} RunTree(m: Image, cs: seq<Call>)
    requires ImageOk(m) && NoOrphans(m.table) && forall c :: c in cs ==> Legal(c)
    requires ChildlessRun(m, cs)
    ensures NoOrphans(Run(m, cs).table)
    decreases |cs|
  {
    if cs != [] {
      StepTree(m, cs[0]);
      RunTree(Step(m, cs[0]), cs[1..]);
    }
  }
}
