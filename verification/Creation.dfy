/** Creating at a path: what the new entry makes resolve, and what it leaves alone. */
module Creation {
  import opened Bytes
  import opened Regions
  import opened Entries
  import opened Disk
  import opened Table
  import opened Paths
  import opened Names
  import opened PathNames
  import opened FileSystem

  // ---------------------------------------------------------------- the last word of a path

  lemma {:induction false} SplitLast(p: seq<byte>, l: nat)
    requires l < |p| && p[l] == SLASH && l + 1 < |p| && forall i :: l < i < |p| ==> p[i] != SLASH
    ensures Split(p) == Split(p[..l]) + [p[l + 1..]]
    decreases |p|
  {
    if p[0] == SLASH {
      if l == 0 {
        var w := p[1..];
        forall i | 0 <= i < |w|
          ensures w[i] != SLASH
        {
        }
        SplitHead(w, []);
        assert w + [] == w && p[..0] == [];
      } else {
        assert p[..l][1..] == p[1..][..l - 1];
        SplitLast(p[1..], l - 1);
      }
    } else {
      var n := WordEnd(p);
      assert n <= l;
      WordEndIs(p[..l], n);
      assert p[..l][..n] == p[..n] && p[..l][n..] == p[n..][..l - n];
      SplitLast(p[n..], l - n);
      assert p[n..][l - n + 1..] == p[l + 1..];
    }
  }

  /** The directory of an absolute path that ends in a name is what the words before the name lead to. */
  lemma ParentWalk(t: seq<Entry>, a: seq<byte>, cur: u64)
    requires IsAbsolute(a) && |a| <= 1023 && LastName(a) != []
    ensures LastSlash(a) >= 0 && ParentOf(t, a, cur) == Walk(t, Split(a[..LastSlash(a)]), 0)
  {
    LastSlashFound(a);
    var l := LastSlash(a);
    assert StripSlashes(a) == a;
    if l > 0 {
      assert a[..l][0] == SLASH;
    }
  }

  lemma LastWord(a: seq<byte>)
    requires IsAbsolute(a) && LastName(a) != []
    ensures LastSlash(a) >= 0 && IsWord(LastName(a)) && Split(a) == Split(a[..LastSlash(a)]) + [LastName(a)]
  {
    LastSlashFound(a);
    SplitLast(a, LastSlash(a));
  }

  /** An absolute path that ends in a name resolves to that name in the directory that a creation
      at the path would use. */
  lemma LastStep(t: seq<Entry>, a: seq<byte>, cur: u64)
    requires IsAbsolute(a) && |a| <= 1023 && LastName(a) != []
    ensures IsWord(LastName(a))
    ensures PathToId(t, a, cur) == Lookup(t, LastName(a), ParentOf(t, a, cur))
  {
    ParentWalk(t, a, cur);
    LastWord(a);
    hide Split, Walk, Lookup, LastSlash, LastName, ParentOf;
    assert a != [DOT] by { assert a[0] == SLASH; }
    WalkAppend(t, Split(a[..LastSlash(a)]), LastName(a), 0);
  }

  lemma LastSlashSuffix(b: seq<byte>, p: seq<byte>)
    requires b != [] && b[|b| - 1] == SLASH
    ensures LastName(b + p) == LastName(p)
  {
    hide LastSlash;
    var s := LastSlash(p);
    var l := |b| + s;
    assert (b + p)[l] == SLASH;
    forall i | l < i < |b| + |p|
      ensures (b + p)[i] != SLASH
    {
    }
    LastSlashIs(b + p, l);
    assert (b + p)[l + 1..] == p[s + 1..];
  }

  /** The absolute form of a path is not cut short. */
  predicate FitsFrom(t: seq<Entry>, p: seq<byte>, cur: u64)
    requires IdsOk(t)
  {
    |p| <= 1023 && (!IsAbsolute(p) ==> |PathOf(t, cur)| + 1 + |p| <= 1023)
  }

  lemma AbsLastName(t: seq<Entry>, p: seq<byte>, cur: u64)
    requires IdsOk(t) && FitsFrom(t, p, cur)
    ensures var a := PathToAbs(t, p, cur); IsAbsolute(a) && |a| <= 1023 && LastName(a) == LastName(p)
  {
    if !IsAbsolute(p) {
      var base := PathOf(t, cur);
      LastSlashSuffix(if base[|base| - 1] == SLASH then base else base + [SLASH], p);
    }
  }

  // ---------------------------------------------------------------- paths that do not move

  /** Every id but the new one keeps its printed path. */
  lemma {:induction false} NamesAdded(t: seq<Entry>, e: Entry, id: u64)
    requires Addable(t, e) && IdsOk(AddEntry(t, e)) && 0 < id != e.id
    ensures NamesTo(AddEntry(t, e), id) == NamesTo(t, id)
    decreases id
  {
    var t' := AddEntry(t, e);
    match SlotWith(t, id)
    case None =>
      assert forall j :: 0 <= j < |t'| ==> t'[j].id != id;
    case Some(k) =>
      FirstWith(t', id, k);
      if t[k].parent != 0 {
        NamesAdded(t, e, t[k].parent);
      }
  }

  lemma PathAdded(t: seq<Entry>, e: Entry, id: u64)
    requires Addable(t, e) && IdsOk(AddEntry(t, e)) && id != e.id
    ensures PathOf(AddEntry(t, e), id) == PathOf(t, id)
  {
    if id > 0 {
      NamesAdded(t, e, id);
    } else {
      RootPath(t);
      RootPath(AddEntry(t, e));
    }
  }

  /** The root prints as "/", whether or not a free slot answers for id 0. */
  lemma RootPath(t: seq<Entry>)
    requires IdsOk(t)
    ensures PathOf(t, 0) == [SLASH]
  {
    match SlotWith(t, 0)
    case None =>
    case Some(k) => FreeNameEmpty(t[k]);
  }

  /** The path does not go through the printed path of `id`. */
  predicate Avoids(p: seq<byte>, cur: u64, id: u64) {
    IsAbsolute(p) || cur != id
  }

  lemma AbsAdded(t: seq<Entry>, e: Entry, p: seq<byte>, cur: u64)
    requires Addable(t, e) && IdsOk(AddEntry(t, e)) && Avoids(p, cur, e.id)
    ensures PathToAbs(AddEntry(t, e), p, cur) == PathToAbs(t, p, cur)
  {
    if !IsAbsolute(p) { PathAdded(t, e, cur); }
  }

  // ---------------------------------------------------------------- what an added entry changes

  /** The paths that an added entry leaves as they were, and the only change to the others. */
  lemma AddedPaths(t: seq<Entry>, e: Entry, q: seq<byte>, cur: u64)
    requires Fresh(t, e) && IdsOk(AddEntry(t, e)) && Avoids(q, cur, e.id)
    ensures var id, id' := IdOf(t, q, cur), IdOf(AddEntry(t, e), q, cur);
      if id != NOT_FOUND then id' == id else id' == NOT_FOUND || id' == e.id
  {
    AbsAdded(t, e, q, cur);
    var a := PathToAbs(t, q, cur);
    assert IsAbsolute(a) && a[0] != DOT;
    SplitWords(Truncated(a));
    WalkAdded(t, e, Split(Truncated(a)), 0);
  }

  /** What a creation adds, when it adds anything, has a fresh id and an unresolved name. */
  lemma MkFileFresh(m: Image, p: seq<byte>, cur: u64, e: Entry)
    requires ImageOk(m) && WellNamed(m.table) && SlotWith(m.table, 0).Some?
    requires 0 !in p && 1 <= |LastName(p)| <= 23 && FitsFrom(m.table, p, cur)
    requires IdOf(m.table, p, cur) == NOT_FOUND
    requires e.parent == ParentOf(m.table, PathToAbs(m.table, p, cur), cur) != NOT_FOUND
    requires e.id == NewId(m) != NOT_FOUND && e.name == NameField(LastName(p))
    ensures Fresh(m.table, e) && NameOfEntry(e) == LastName(p) && e.id == m.lastId + 1
    ensures IdsOk(AddEntry(m.table, e)) && IdOf(m.table, p, cur) == Lookup(m.table, LastName(p), e.parent)
  {
    AbsLastName(m.table, p, cur);
    LastStep(m.table, PathToAbs(m.table, p, cur), cur);
    CStringOfName(LastName(p));
    NewParentBound(m, p, cur);
    LastIdBelow(m);
    NewEntryAddable(m.table, m.lastId, e);
    AddKeepsIds(m.table, e);
  }

  /** The absolute path of a new entry resolves to it. */
  lemma AbsoluteAdded(t: seq<Entry>, e: Entry, a: seq<byte>, cur: u64)
    requires Fresh(t, e) && IdsOk(AddEntry(t, e))
    requires IsAbsolute(a) && |a| <= 1023 && LastName(a) == NameOfEntry(e) != [] && e.parent == ParentOf(t, a, cur)
    ensures PathToId(AddEntry(t, e), a, cur) == e.id
  {
    LastStep(AddEntry(t, e), a, cur);
    ParentAdded(t, e, a, cur);
    LookupAdded(t, e, LastName(a), e.parent);
  }

  lemma ParentAdded(t: seq<Entry>, e: Entry, a: seq<byte>, cur: u64)
    requires Fresh(t, e) && IsAbsolute(a) && |a| <= 1023 && LastName(a) != []
    requires ParentOf(t, a, cur) == e.parent
    ensures ParentOf(AddEntry(t, e), a, cur) == e.parent
  {
    var l := LastSlash(a);
    LastSlashFound(a);
    assert StripSlashes(a) == a;
    if l > 0 {
      assert a[..l][0] == SLASH;
      SplitWords(a[..l]);
      WalkAdded(t, e, Split(a[..l]), 0);
    }
  }

  // ---------------------------------------------------------------- a stale current directory

  lemma NoEntryPath(t: seq<Entry>, id: u64)
    requires IdsOk(t) && SlotWith(t, id) == None
    ensures PathOf(t, id) == [SLASH]
  {
  }

  lemma {:induction false} JoinEnd(ws: Words)
    requires AreWords(ws) && ws != []
    ensures Join(ws) != [] && Join(ws)[|Join(ws)| - 1] != SLASH
  {
    if |ws| == 1 {
      assert IsWord(ws[0]);
    } else {
      JoinEnd(ws[1..]);
    }
  }

  /** What is left of a path behind a printed directory. */
  function Tail(ws: Words, p: seq<byte>): (r: seq<byte>)
    requires |Join(ws)| <= 1021
    ensures r <= p && (p != [] ==> (r == [] <==> |Join(ws)| == 1021))
  {
    var room := 1021 - |Join(ws)|;
    if |p| <= room then p else p[..room]
  }

  lemma BehindJoin(ws: Words, p: seq<byte>)
    requires AreWords(ws) && ws != [] && |Join(ws)| <= 1021
    ensures var a := Truncated([SLASH] + Join(ws) + [SLASH] + p);
      a == [SLASH] + Join(ws) + [SLASH] + Tail(ws, p) && Split(a) == ws + Split(Tail(ws, p))
  {
    var base, r := [SLASH] + Join(ws) + [SLASH], Tail(ws, p);
    assert Truncated(base + p) == base + r;
    SplitAfterJoin(ws, r);
    assert (base + r)[1..] == Join(ws) + [SLASH] + r;
  }

  lemma BehindPath(t: seq<Entry>, id: u64, ws: Words, p: seq<byte>)
    requires IdsOk(t) && NamesTo(t, id) == ws && AreWords(ws) && ws != [] && |Join(ws)| <= 1021 && !IsAbsolute(p)
    ensures IdOf(t, p, id) == Walk(t, ws + Split(Tail(ws, p)), 0)
  {
    JoinEnd(ws);
    BehindJoin(ws, p);
    var a := [SLASH] + Join(ws) + [SLASH] + Tail(ws, p);
    assert PathOf(t, id)[|PathOf(t, id)| - 1] != SLASH;
    assert PathToAbs(t, p, id) == a && a[0] == SLASH && Truncated(a) == a;
  }

  /** Nothing fits behind a printed path of 1023 characters. */
  lemma BehindFull(t: seq<Entry>, id: u64, ws: Words, p: seq<byte>)
    requires IdsOk(t) && NamesTo(t, id) == ws && AreWords(ws) && |Join(ws)| == 1022 && !IsAbsolute(p)
    ensures IdOf(t, p, id) == Walk(t, ws, 0)
  {
    var a := PathOf(t, id);
    assert PathToAbs(t, p, id) == a && a[0] == SLASH && Truncated(a) == a;
    SplitAbsolute(ws);
  }

  /** From the directory that the new entry itself has become, its path leads below it and finds nothing,
      unless nothing of it is left within the 1023 characters of an absolute path. */
  lemma BelowNew(t: seq<Entry>, e: Entry, ws: Words, p: seq<byte>)
    requires Fresh(t, e) && IdsOk(AddEntry(t, e))
    requires AreWords(ws) && ws != [] && NamesTo(AddEntry(t, e), e.id) == ws && Walk(AddEntry(t, e), ws, 0) == e.id
    requires p != [] && !IsAbsolute(p) && |Join(ws)| <= 1022
    ensures IdOf(AddEntry(t, e), p, e.id) == if |Join(ws)| >= 1021 then e.id else NOT_FOUND
  {
    hide Fresh, Walk, NamesTo, AddEntry, PathToAbs, IdOf, Join;
    var t' := AddEntry(t, e);
    if |Join(ws)| == 1022 {
      BehindFull(t', e.id, ws, p);
      return;
    }
    var r := Tail(ws, p);
    BehindPath(t', e.id, ws, p);
    WalkOn(t', ws, Split(r), 0);
    SplitWords(r);
    WalkFromNew(t, e, Split(r));
    assert r == [] || r[0] == p[0];
  }

  /** The printed path of a new entry at `a` is the words of `a`. */
  lemma NewNames(t: seq<Entry>, e: Entry, a: seq<byte>, cur: u64)
    requires Fresh(t, e) && IdsOk(AddEntry(t, e)) && IsAbsolute(a) && |a| <= 1023
    requires LastName(a) == NameOfEntry(e) && e.parent == ParentOf(t, a, cur)
    ensures var ws := Split(a);
      && AreWords(ws) && ws != [] && Walk(AddEntry(t, e), ws, 0) == e.id && NamesTo(AddEntry(t, e), e.id) == ws
  {
    AddKeepsNames(t, e);
    AbsoluteAdded(t, e, a, cur);
    SplitWords(a);
    RootedByWalk(AddEntry(t, e), Split(a));
  }

  /** What a relative path means when it is used from the id of a new entry. */
  lemma FromNewId(t: seq<Entry>, e: Entry, a: seq<byte>, cur: u64, q: seq<byte>)
    requires Fresh(t, e) && IdsOk(AddEntry(t, e)) && IsAbsolute(a) && |a| <= 1023
    requires LastName(a) == NameOfEntry(e) && e.parent == ParentOf(t, a, cur)
    requires q != [] && !IsAbsolute(q)
    ensures IdOf(AddEntry(t, e), q, e.id) == if |Join(Split(a))| >= 1021 then e.id else NOT_FOUND
  {
    NewNames(t, e, a, cur);
    SplitSize(a);
    JoinSize(Split(a));
    BelowNew(t, e, Split(a), q);
  }

  /** What the path of a new entry means when it is used from the entry's own id. */
  lemma FromNew(t: seq<Entry>, e: Entry, p: seq<byte>)
    requires Fresh(t, e) && IdsOk(AddEntry(t, e)) && !IsAbsolute(p) && FitsFrom(t, p, e.id)
    requires LastName(p) == NameOfEntry(e) && e.parent == ParentOf(t, PathToAbs(t, p, e.id), e.id)
    ensures IdOf(AddEntry(t, e), p, e.id) == if |Join(Split(p))| >= 1021 then e.id else NOT_FOUND
  {
    NoEntryPath(t, e.id);
    AbsLastName(t, p, e.id);
    var a := PathToAbs(t, p, e.id);
    assert a == [SLASH] + p && a[1..] == p;
    assert Split(a) == Split(p);
    assert LastName(p) != [] && p != [];
    FromNewId(t, e, a, e.id, p);
  }

  // ---------------------------------------------------------------- the theorem

  /** Used again, the path of a new entry `id` means the entry: unless it is relative and `cur` is an id that
      only now has been given out (and the path is not as long as paths can be). */
  predicate MeansNew(p: seq<byte>, cur: u64, id: u64) {
    Avoids(p, cur, id) || |Join(Split(p))| >= 1021
  }

  lemma Added(t: seq<Entry>, e: Entry, p: seq<byte>, cur: u64, q: seq<byte>, qcur: u64)
    requires Fresh(t, e) && IdsOk(AddEntry(t, e)) && Avoids(q, qcur, e.id)
    requires FitsFrom(t, p, cur)
    requires NameOfEntry(e) == LastName(p) && e.parent == ParentOf(t, PathToAbs(t, p, cur), cur)
    ensures WellNamed(AddEntry(t, e)) && (UniqueNames(t) ==> UniqueNames(AddEntry(t, e)))
    ensures IdOf(AddEntry(t, e), p, cur) == if MeansNew(p, cur, e.id) then e.id else NOT_FOUND
    ensures var id, id' := IdOf(t, q, qcur), IdOf(AddEntry(t, e), q, qcur);
      if id != NOT_FOUND then id' == id else id' == NOT_FOUND || id' == e.id
  {
    AddKeepsNames(t, e);
    AddedPaths(t, e, q, qcur);
    if Avoids(p, cur, e.id) {
      AbsAdded(t, e, p, cur);
      AbsLastName(t, p, cur);
      AbsoluteAdded(t, e, PathToAbs(t, p, cur), cur);
    } else {
      FromNew(t, e, p);
    }
  }

  /** Creating at an unresolved path with a resolving parent makes that path resolve to the new id exactly
      when there is a free slot (and the current directory is not the new id itself); with a full table it
      stays unresolved although the call reports success. Every path that resolved before still resolves to
      what it did. */
  lemma MkFileResolves(m: Image, p: seq<byte>, cur: u64, q: seq<byte>, qcur: u64)
    requires ImageOk(m) && WellNamed(m.table)
    requires 0 !in p && 1 <= |LastName(p)| <= 23 && FitsFrom(m.table, p, cur)
    requires Avoids(q, qcur, NewId(m))
    requires IdOf(m.table, p, cur) == NOT_FOUND && MkFile(m, p, cur).1 == 0
    ensures Resolved(m, MkFile(m, p, cur).0, p, cur) && KeepsPath(m, MkFile(m, p, cur).0, q, qcur)
    ensures Avoids(p, cur, NewId(m)) ==>
      (IdOf(MkFile(m, p, cur).0.table, p, cur) != NOT_FOUND <==> SlotWith(m.table, 0).Some?)
  {
    if SlotWith(m.table, 0).Some? {
      var e := FileEntry(m, p, cur, FirstFit(m.store.bits, REGION).value);
      MkFileFresh(m, p, cur, e);
      Added(m.table, e, p, cur, q, qcur);
    }
  }

  /** The same for directories. */
  lemma MkDirResolves(m: Image, p: seq<byte>, cur: u64, q: seq<byte>, qcur: u64)
    requires ImageOk(m) && WellNamed(m.table)
    requires 0 !in p && 1 <= |LastName(p)| <= 23 && FitsFrom(m.table, p, cur)
    requires Avoids(q, qcur, NewId(m))
    requires IdOf(m.table, p, cur) == NOT_FOUND && MkDir(m, p, cur).1 == 0
    ensures Resolved(m, MkDir(m, p, cur).0, p, cur) && KeepsPath(m, MkDir(m, p, cur).0, q, qcur)
    ensures Avoids(p, cur, NewId(m)) ==>
      (IdOf(MkDir(m, p, cur).0.table, p, cur) != NOT_FOUND <==> SlotWith(m.table, 0).Some?)
  {
    if SlotWith(m.table, 0).Some? {
      var e := DirEntry(m, p, cur);
      MkFileFresh(m, p, cur, e);
      Added(m.table, e, p, cur, q, qcur);
    }
  }

  /** After a creation at `p` the tree is as well named as before, and `p` means the new id or nothing. */
  ghost predicate Resolved(m: Image, m': Image, p: seq<byte>, cur: u64) {
    && IdsOk(m'.table) && WellNamed(m'.table) && (UniqueNames(m.table) ==> UniqueNames(m'.table))
    && |m.table| == |m'.table|
    && (IdOf(m'.table, p, cur) == NewId(m) <==> SlotWith(m.table, 0).Some? && MeansNew(p, cur, NewId(m)))
    && (IdOf(m'.table, p, cur) == NOT_FOUND <==> !(SlotWith(m.table, 0).Some? && MeansNew(p, cur, NewId(m))))
    && (SlotWith(m.table, 0) == None ==> m'.table == m.table)
  }

  ghost predicate KeepsPath(m: Image, m': Image, q: seq<byte>, cur: u64) {
    && IdsOk(m.table) && IdsOk(m'.table)
    && var id, id' := IdOf(m.table, q, cur), IdOf(m'.table, q, cur);
       if id != NOT_FOUND then id' == id else id' == NOT_FOUND || id' == NewId(m)
  }

  // ---------------------------------------------------------------- how a stale directory comes about

  lemma MkDirAdds(m: Image, p: seq<byte>, cur: u64, k: nat)
    requires ImageOk(m) && |LastName(p)| <= 23 && SlotWith(m.table, 0) == Some(k) && MkDir(m, p, cur).1 == 0
    ensures MkDir(m, p, cur).0.table == m.table[k := DirEntry(m, p, cur)] && m.table[k] == FreeSlot()
    ensures SlotWith(m.table[k := DirEntry(m, p, cur)], NewId(m)) == Some(k) && 0 < NewId(m) < NOT_FOUND
  {
    hide GridOk, EntriesOk, MaxId, ParentOf, PathToAbs;
    LastIdBelow(m);
    FirstWith(m.table[k := DirEntry(m, p, cur)], NewId(m), k);
  }

  lemma NewDirEmpty(m: Image, p: seq<byte>, cur: u64, k: nat)
    requires ImageOk(m) && |LastName(p)| <= 23 && SlotWith(m.table, 0) == Some(k) && MkDir(m, p, cur).1 == 0
    ensures !HasChildren(m.table[k := DirEntry(m, p, cur)], NewId(m))
  {
    hide GridOk, EntriesOk, MaxId, ParentOf, PathToAbs;
    LastIdBelow(m);
    NewParentBound(m, p, cur);
    forall j | 0 <= j < TABLE_ENTRIES
      ensures m.table[j].parent != NewId(m)
    {
      NewIdUnreferenced(m, j);
    }
  }

  /** Creating a directory and removing it gives everything back, the id included: whoever still has that
      id as current directory has one that the next creation hands out. */
  lemma MkDirRmDir(m: Image, p: seq<byte>, cur: u64)
    requires ImageOk(m) && |LastName(p)| <= 23 && SlotWith(m.table, 0).Some? && MkDir(m, p, cur).1 == 0
    ensures |MkDir(m, p, cur).0.table| == TABLE_ENTRIES && RmDirById(MkDir(m, p, cur).0, NewId(m)) == (m, 0)
  {
    var k := SlotWith(m.table, 0).value;
    MkDirAdds(m, p, cur, k);
    NewDirEmpty(m, p, cur, k);
    hide GridOk, EntriesOk, IdsOk, ParentOf, PathToAbs, HasChildren, MaxId;
    assert m.table[k := DirEntry(m, p, cur)][k := FreeSlot()] == m.table;
  }

  /** From such a directory a relative creation succeeds, at the root, and its own path does not find it. */
  lemma StaleDirectory(m: Image, p: seq<byte>)
    requires ImageOk(m) && WellNamed(m.table) && SlotWith(m.table, 0).Some?
    requires 0 !in p && 1 <= |LastName(p)| <= 23 && |p| <= 1020 && !IsAbsolute(p)
    requires IdOf(m.table, p, NewId(m)) == NOT_FOUND && MkFile(m, p, NewId(m)).1 == 0
    ensures var m' := MkFile(m, p, NewId(m)).0;
      && IdsOk(m'.table) && IdOf(m'.table, p, NewId(m)) == NOT_FOUND
      && IdOf(m'.table, [SLASH] + p, 0) == NewId(m)
  {
    StaleResolves(m, p);
    SplitSize(p);
    JoinSize(Split(p));
    var id := NewId(m);
    var e := FileEntry(m, p, id, FirstFit(m.store.bits, REGION).value);
    MkFileFresh(m, p, id, e);
    AtRoot(m, e, p);
  }

  lemma StaleFits(m: Image, p: seq<byte>)
    requires ImageOk(m) && |p| <= 1021 && !IsAbsolute(p)
    ensures FitsFrom(m.table, p, NewId(m)) && PathToAbs(m.table, p, NewId(m)) == [SLASH] + p
  {
    LastIdBelow(m);
    NoEntryPath(m.table, NewId(m));
  }

  lemma StaleResolves(m: Image, p: seq<byte>)
    requires ImageOk(m) && WellNamed(m.table) && 0 !in p && 1 <= |LastName(p)| <= 23 && |p| <= 1021 && !IsAbsolute(p)
    requires IdOf(m.table, p, NewId(m)) == NOT_FOUND && MkFile(m, p, NewId(m)).1 == 0
    ensures Resolved(m, MkFile(m, p, NewId(m)).0, p, NewId(m)) && FitsFrom(m.table, p, NewId(m))
  {
    StaleFits(m, p);
    MkFileResolves(m, p, NewId(m), [SLASH] + p, 0);
  }

  lemma AtRoot(m: Image, e: Entry, p: seq<byte>)
    requires ImageOk(m) && Fresh(m.table, e) && IdsOk(AddEntry(m.table, e)) && |p| <= 1021 && !IsAbsolute(p)
    requires NameOfEntry(e) == LastName(p) && e.parent == ParentOf(m.table, PathToAbs(m.table, p, NewId(m)), NewId(m))
    ensures IdOf(AddEntry(m.table, e), [SLASH] + p, 0) == e.id
  {
    StaleFits(m, p);
    AbsLastName(m.table, p, NewId(m));
    AbsoluteAdded(m.table, e, [SLASH] + p, NewId(m));
    AbsoluteId(AddEntry(m.table, e), [SLASH] + p, NewId(m));
  }
}
