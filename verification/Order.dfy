/** Tables in which every live entry can be reached by its path: when a call keeps them so, and over which runs. */
module Order {
  import opened Bytes
  import Regions
  import opened Entries
  import opened Disk
  import opened Table
  import opened Paths
  import opened Names
  import opened PathNames
  import Creation
  import FileData
  import opened FileSystem
  import opened Tree

  /** A tree in which every entry has a name that is a word, and no two in one directory have the same. */
  ghost predicate Ordered(t: seq<Entry>) {
    NoOrphans(t) && WellNamed(t) && UniqueNames(t)
  }

  /** Every live entry's printed path leads back to it. */
  lemma PathsResolve(t: seq<Entry>, k: nat, cur: u64)
    requires IdsOk(t) && Ordered(t) && k < |t| && t[k].id != 0 && |PathOf(t, t[k].id)| <= 1023
    ensures PathToId(t, PathOf(t, t[k].id), cur) == t[k].id
  {
    AllRooted(t, k);
    PrintThenParse(t, t[k].id, cur);
  }

  /** Some path of words leads from the root to `id`. */
  ghost predicate Reached(t: seq<Entry>, id: u64) {
    exists ws: Words :: AreWords(ws) && Walk(t, ws, 0) == id
  }

  /** An entry that is reached has a word for a name, is the first of that name in its directory, and its directory
      is the root or live. */
  lemma ReachedParts(t: seq<Entry>, k: nat)
    requires IdsOk(t) && k < |t| && t[k].id != 0 && Reached(t, t[k].id) && |NameOfEntry(t[k])| <= 23
    ensures IsWord(NameOfEntry(t[k])) && SlotNamed(t, NameOfEntry(t[k]), t[k].parent) == Some(k)
    ensures t[k].parent == 0 || Live(t, t[k].parent)
  {
    var ws: Words :| AreWords(ws) && Walk(t, ws, 0) == t[k].id;
    var init, w := ws[..|ws| - 1], ws[|ws| - 1];
    assert ws == init + [w] && AreWords(init) && IsWord(w);
    WalkAppend(t, init, w, 0);
    WalkLive(t, init, 0);
    SlotIs(t, k);
    var j := SlotNamed(t, w, Walk(t, init, 0)).value;
    SlotIs(t, j);
    MatchIs(t[k], w, Walk(t, init, 0));
  }

  lemma AllReached(t: seq<Entry>)
    requires IdsOk(t) && Ordered(t)
    ensures forall k :: 0 <= k < |t| && t[k].id != 0 ==> Reached(t, t[k].id)
  {
    forall k | 0 <= k < |t| && t[k].id != 0
      ensures Reached(t, t[k].id)
    {
      hide NoOrphans, WellNamed, UniqueNames, IdsOk, Rooted;
      AllRooted(t, k);
      WalkToRooted(t, t[k].id);
    }
  }

  /** So the table is ordered exactly when every live entry is reached. */
  lemma OrderedIff(t: seq<Entry>)
    requires IdsOk(t) && forall k :: 0 <= k < |t| ==> |NameOfEntry(t[k])| <= 23
    ensures Ordered(t) <==> forall k :: 0 <= k < |t| && t[k].id != 0 ==> Reached(t, t[k].id)
  {
    if Ordered(t) {
      AllReached(t);
    }
    if forall k :: 0 <= k < |t| && t[k].id != 0 ==> Reached(t, t[k].id) {
      hide Reached;
      forall k | 0 <= k < |t| && t[k].id != 0
        ensures IsWord(NameOfEntry(t[k])) && SlotNamed(t, NameOfEntry(t[k]), t[k].parent) == Some(k)
        ensures t[k].parent == 0 || Live(t, t[k].parent)
      {
        ReachedParts(t, k);
      }
      FirstNamesUnique(t);
    }
  }

  lemma FirstNamesUnique(t: seq<Entry>)
    requires forall k :: 0 <= k < |t| && t[k].id != 0 ==> SlotNamed(t, NameOfEntry(t[k]), t[k].parent) == Some(k)
    ensures UniqueNames(t)
  {
  }

  // ---------------------------------------------------------------- going up

  /** The words of a live entry's path are its directory's and its name. */
  lemma NamesOf(t: seq<Entry>, k: nat)
    requires IdsOk(t) && Ordered(t) && k < |t| && t[k].id != 0
    ensures AreWords(NamesTo(t, t[k].id)) && IsWord(NameOfEntry(t[k]))
    ensures NamesTo(t, t[k].id)
      == (if t[k].parent == 0 then [] else NamesTo(t, t[k].parent)) + [NameOfEntry(t[k])]
    ensures t[k].parent < NOT_FOUND && (t[k].parent != 0 ==> Rooted(t, t[k].parent))
  {
    SlotIs(t, k);
    AllRooted(t, k);
    WalkToRooted(t, t[k].id);
  }

  lemma BehindUp(ws: Words)
    requires AreWords(ws) && ws != []
    ensures AreWords(ws + [[DOT, DOT]]) && PathFrom(ws) + [SLASH, DOT, DOT] == PathFrom(ws + [[DOT, DOT]])
  {
    JoinLast(ws, [DOT, DOT]);
  }

  /** What the path of a live entry with "/.." behind it resolves to. */
  lemma UpResolved(t: seq<Entry>, k: nat, cur: u64)
    requires IdsOk(t) && Ordered(t) && k < |t| && t[k].id != 0 && |PathOf(t, t[k].id)| + 3 <= 1023
    ensures var up := Follow(NamesTo(t, t[k].id) + [[DOT, DOT]], []);
      AreNames(up) && PathToId(t, Resolve(PathOf(t, t[k].id) + [SLASH, DOT, DOT]), cur) == Walk(t, up, 0)
  {
    hide IdsOk, Ordered, NamesTo, Split, Follow, Walk, Join, PathToId, Resolve, AreWords, AreNames, Rooted;
    NamesOf(t, k);
    BehindUp(NamesTo(t, t[k].id));
    ResolvedWalk(t, NamesTo(t, t[k].id) + [[DOT, DOT]], cur);
  }

  /** Looking up a resolved path is following its words through "." and ".." and walking down. */
  lemma ResolvedWalk(t: seq<Entry>, ws: Words, cur: u64)
    requires AreWords(ws) && |PathFrom(ws)| <= 1023
    ensures AreNames(Follow(ws, [])) && PathToId(t, Resolve(PathFrom(ws)), cur) == Walk(t, Follow(ws, []), 0)
  {
    hide Walk, Join, Follow;
    ResolveWords(ws);
    ResolveCanonical(PathFrom(ws));
    FollowNames(ws, []);
    SplitAbsolute(Follow(ws, []));
  }

  /** Going up from a live entry by its path comes to its directory, exactly when the directory is the root or no
      name on the path is "." or "..". */
  lemma UpIsParent(t: seq<Entry>, k: nat, cur: u64)
    requires IdsOk(t) && Ordered(t) && k < |t| && t[k].id != 0 && |PathOf(t, t[k].id)| + 3 <= 1023
    ensures PathToId(t, Resolve(PathOf(t, t[k].id) + [SLASH, DOT, DOT]), cur) == t[k].parent
      <==> t[k].parent == 0 || AreNames(NamesTo(t, t[k].id))
  {
    hide Ordered, IdsOk, NamesTo, Follow, Walk, PathToId, Resolve, PathOf, AreWords, AreNames, Rooted;
    UpResolved(t, k, cur);
    NamesOf(t, k);
    var parent, w := t[k].parent, NameOfEntry(t[k]);
    if parent == 0 {
      assert [] + [w] == [w];
      UpAtRoot(t, w);
    } else {
      UpFromNested(t, k, NamesTo(t, parent), w);
    }
  }

  lemma UpAtRoot(t: seq<Entry>, w: seq<byte>)
    ensures Walk(t, Follow([w] + [[DOT, DOT]], []), 0) == 0
  {
    var both, one: Words := [w] + [[DOT, DOT]], [[DOT, DOT]];
    assert both[0] == w && both[1..] == one && one[1..] == [];
    assert Follow(both, []) == Follow(one, Moved(w, [])) == Follow([], Moved([DOT, DOT], Moved(w, [])));
  }

  lemma UpFollowed(at: Words, w: seq<byte>)
    requires AreNames(at)
    ensures AreNames([w]) ==> Follow(at + [w] + [[DOT, DOT]], []) == at
    ensures at != [] && IsDots(w) ==> |Follow(at + [w] + [[DOT, DOT]], [])| < |at|
  {
    FollowAppend(at + [w], [[DOT, DOT]], []);
    FollowAppend(at, [w], []);
    FollowPlain(at, []);
    var one, two: Words := [w], [[DOT, DOT]];
    assert w in one && one[1..] == [] && two[1..] == [];
    assert Follow([w], at) == Moved(w, at) && Follow([[DOT, DOT]], Moved(w, at)) == Moved([DOT, DOT], Moved(w, at));
  }

  lemma WalkNowhere(t: seq<Entry>)
    ensures Walk(t, [], 0) == 0
  {
  }

  lemma UpFromNested(t: seq<Entry>, k: nat, at: Words, w: seq<byte>)
    requires IdsOk(t) && Ordered(t) && k < |t| && t[k].id != 0 && 0 < t[k].parent < NOT_FOUND && Rooted(t, t[k].parent)
    requires at == NamesTo(t, t[k].parent) && w == NameOfEntry(t[k]) && NamesTo(t, t[k].id) == at + [w]
    requires AreWords(at + [w])
    ensures Walk(t, Follow(at + [w] + [[DOT, DOT]], []), 0) == t[k].parent <==> AreNames(at + [w])
  {
    hide NoOrphans, WellNamed, UniqueNames, Walk, NamesTo, IdsOk, Rooted, NameOfEntry;
    var up := Follow(at + [w] + [[DOT, DOT]], []);
    assert Walk(t, [], 0) == 0 by { WalkNowhere(t); }
    WalkToRooted(t, t[k].parent);
    FollowNames(at + [w] + [[DOT, DOT]], []);
    if AreNames(at + [w]) {
      assert forall x :: x in at || x in [w] ==> x in at + [w];
      UpFollowed(at, w);
    } else if Walk(t, up, 0) == t[k].parent {
      RootedByWalk(t, up);
      UpFollowed(at, w);
    }
  }

  // ---------------------------------------------------------------- relative paths

  /** The words from the root to a directory. */
  function WordsTo(t: seq<Entry>, dir: u64): Words
    requires IdsOk(t)
  {
    if dir == 0 then [] else NamesTo(t, dir)
  }

  /** The root, or an entry with live ancestors. */
  ghost predicate IsPlace(t: seq<Entry>, dir: u64)
    requires IdsOk(t)
  {
    dir == 0 || Rooted(t, dir)
  }

  lemma WalkToPlace(t: seq<Entry>, dir: u64)
    requires IdsOk(t) && WellNamed(t) && UniqueNames(t) && IsPlace(t, dir)
    ensures AreWords(WordsTo(t, dir)) && Walk(t, WordsTo(t, dir), 0) == dir && PathOf(t, dir) == PathFrom(WordsTo(t, dir))
  {
    if dir == 0 {
      Creation.RootPath(t);
    } else {
      WalkToRooted(t, dir);
    }
  }

  lemma {:induction false} JoinAppend(a: Words, b: Words)
    requires b != []
    ensures Join(a + b) == if a == [] then Join(b) else Join(a) + [SLASH] + Join(b)
  {
    if a == [] {
      assert a + b == b;
    } else {
      assert (a + b)[0] == a[0] && (a + b)[1..] == a[1..] + b;
      JoinAppend(a[1..], b);
      if |a| > 1 {
        assert Join(a + b) == a[0] + [SLASH] + (Join(a[1..]) + [SLASH] + Join(b));
      }
    }
  }

  /** A relative path of words is made absolute by putting its directory's words before it. */
  lemma AbsoluteOf(t: seq<Entry>, ws: Words, cur: u64)
    requires IdsOk(t) && WellNamed(t) && UniqueNames(t) && IsPlace(t, cur) && AreWords(ws) && ws != []
    requires |PathFrom(WordsTo(t, cur) + ws)| <= 1023
    ensures PathToAbs(t, Join(ws), cur) == PathFrom(WordsTo(t, cur) + ws)
  {
    hide Join, PathOf, NamesTo, WordsTo, AreWords, Rooted, Walk, IdsOk, WellNamed, UniqueNames, IsPlace;
    var at, base := WordsTo(t, cur), PathOf(t, cur);
    WalkToPlace(t, cur);
    JoinAppend(at, ws);
    FirstOfJoin(ws);
    if at != [] { Creation.JoinEnd(at); }
    BaseOf(at, base, ws);
  }

  lemma BaseOf(at: Words, base: seq<byte>, ws: Words)
    requires base == PathFrom(at) && Join([]) == []
    requires at != [] ==> Join(at) != [] && Join(at)[|Join(at)| - 1] != SLASH
    requires Join(at + ws) == if at == [] then Join(ws) else Join(at) + [SLASH] + Join(ws)
    ensures base != [] && PathFrom(at + ws) == (if base[|base| - 1] == SLASH then base else base + [SLASH]) + Join(ws)
  {
    hide Join;
  }

  lemma FirstOfJoin(ws: Words)
    requires AreWords(ws) && ws != []
    ensures Join(ws) != [] && Join(ws)[0] != SLASH && Join([]) == []
  {
    assert IsWord(ws[0]) && ws[0][0] in ws[0];
  }

  /** Used from a directory that the root leads to, a relative path means the walk from there, and a creation at it
      goes where the walk along all words but the last leads. */
  lemma RelativeMeans(t: seq<Entry>, ws: Words, w: seq<byte>, cur: u64)
    requires IdsOk(t) && WellNamed(t) && UniqueNames(t) && IsPlace(t, cur) && AreWords(ws) && IsWord(w)
    requires |PathFrom(WordsTo(t, cur) + (ws + [w]))| <= 1023
    ensures IdOf(t, Join(ws + [w]), cur) == Walk(t, ws + [w], cur)
    ensures ParentOf(t, PathToAbs(t, Join(ws + [w]), cur), cur) == Walk(t, ws, cur)
  {
    var at := WordsTo(t, cur);
    WalkToPlace(t, cur);
    AbsoluteOf(t, ws + [w], cur);
    assert at + (ws + [w]) == (at + ws) + [w];
    hide Join, NamesTo, Rooted, Walk, IdsOk, WellNamed, UniqueNames, ParentOf, PathToAbs, Split;
    CanonicalParent(t, at + ws, w, cur);
    WalkOn(t, at, ws, 0);
    WalkOn(t, at, ws + [w], 0);
    SplitAbsolute(at + (ws + [w]));
    assert PathFrom(at + (ws + [w]))[0] == SLASH;
  }

  /** "." is the current directory, and any other relative path of words is looked up from there. */
  lemma LookedUpFrom(t: seq<Entry>, ws: Words, cur: u64)
    requires AreWords(ws) && ws != [] && |Join(ws)| <= 1023
    ensures PathToId(t, Join(ws), cur) == if ws == [[DOT]] then cur else Walk(t, ws, cur)
  {
    FirstOfJoin(ws);
    SplitJoin(ws);
    if Join(ws) == [DOT] {
      SplitHead([DOT], []);
      assert [DOT] + [] == [DOT] && Split([]) == [];
    }
  }

  /** The directory of a relative path of words is looked up in the same way; for a single word it is the current one. */
  lemma DirectoryOf(t: seq<Entry>, ws: Words, w: seq<byte>, cur: u64)
    requires AreWords(ws) && IsWord(w) && |Join(ws + [w])| <= 1023
    ensures ParentOf(t, Join(ws + [w]), cur) == if ws == [[DOT]] then cur else Walk(t, ws, cur)
  {
    RelativeParts(ws, w);
    hide Join, LastSlash, StripSlashes, Split, Walk, PathToId, AreWords;
    if ws != [] { LookedUpFrom(t, ws, cur); }
  }

  /** The last word of a relative path and what is before it. */
  lemma RelativeParts(ws: Words, w: seq<byte>)
    requires AreWords(ws) && IsWord(w)
    ensures var p := Join(ws + [w]);
      && StripSlashes(p) == p
      && (if ws == [] then LastSlash(p) == -1
          else 0 < LastSlash(p) && p[..LastSlash(p)] == Join(ws) && |Join(ws)| <= |p|)
  {
    JoinLast(ws, w);
    var p := Join(ws + [w]);
    assert p[|p| - 1] == w[|w| - 1] && w[|w| - 1] in w;
    if ws == [] {
      NoSlash(w);
    } else {
      FirstOfJoin(ws);
      EndsInWord(Join(ws), w);
    }
  }

  lemma EndsInWord(a: seq<byte>, w: seq<byte>)
    requires SLASH !in w
    ensures LastSlash(a + [SLASH] + w) == |a| && (a + [SLASH] + w)[..|a|] == a
  {
    hide LastSlash;
    var p, l := a + [SLASH] + w, |a|;
    forall i | l < i < |p|
      ensures p[i] != SLASH
    {
      InWord(w, i - l - 1);
    }
    LastSlashIs(p, l);
  }

  lemma InWord(w: seq<byte>, i: nat)
    requires SLASH !in w && i < |w|
    ensures w[i] != SLASH
  {
  }

  lemma NoSlash(w: seq<byte>)
    requires SLASH !in w
    ensures LastSlash(w) == -1
  {
  }

  // ---------------------------------------------------------------- creation

  /** The name of an entry created at `p`. */
  function NewName(p: seq<byte>): (w: seq<byte>)
    requires |LastName(p)| <= 23
    ensures |w| <= 23 && SLASH !in w
  {
    NameFits(LastName(p));
    NameChars(NameField(LastName(p)));
    CString(NameField(LastName(p)))
  }

  lemma NewNameIs(p: seq<byte>)
    requires |LastName(p)| <= 23 && 0 !in p
    ensures NewName(p) == LastName(p)
  {
    CStringOfName(LastName(p));
  }

  lemma {:induction false} NameChars(s: seq<byte>)
    ensures forall x :: x in CString(s) ==> x in s
  {
    if s != [] && s[0] != 0 {
      NameChars(s[1..]);
    }
  }

  /** An added entry keeps the names words exactly when its own is one. */
  lemma AddedName(t: seq<Entry>, e: Entry)
    requires Addable(t, e) && WellNamed(t) && |NameOfEntry(e)| <= 23 && SLASH !in NameOfEntry(e)
    ensures WellNamed(AddEntry(t, e)) <==> NameOfEntry(e) != []
  {
    var s := SlotWith(t, 0).value;
    assert AddEntry(t, e)[s] == e;
  }

  /** It keeps them unique exactly when its name is not found in its directory before. */
  lemma AddedUnique(t: seq<Entry>, e: Entry)
    requires Addable(t, e) && WellNamed(t) && UniqueNames(t) && IsWord(NameOfEntry(e)) && |NameOfEntry(e)| <= 23
    ensures UniqueNames(AddEntry(t, e)) <==> Lookup(t, NameOfEntry(e), e.parent) == NOT_FOUND
  {
    var s, t' := SlotWith(t, 0).value, AddEntry(t, e);
    if Lookup(t, NameOfEntry(e), e.parent) == NOT_FOUND {
      AddKeepsNames(t, e);
    } else {
      var k := FoundEntry(t, NameOfEntry(e), e.parent);
      assert t'[k] == t[k] && t'[s] == e && k != s;
    }
  }

  /** A creation at `p` gives a word that its directory does not have yet. */
  predicate Proper(t: seq<Entry>, p: seq<byte>, cur: u64)
    requires IdsOk(t) && |LastName(p)| <= 23
  {
    NewName(p) != [] && Lookup(t, NewName(p), ParentOf(t, PathToAbs(t, p, cur), cur)) == NOT_FOUND
  }

  lemma AddedOrdered(m: Image, p: seq<byte>, cur: u64, e: Entry)
    requires ImageOk(m) && Ordered(m.table) && |LastName(p)| <= 23 && SlotWith(m.table, 0).Some?
    requires e.name == NameField(LastName(p)) && e.id == NewId(m) != NOT_FOUND
    requires e.parent == ParentOf(m.table, PathToAbs(m.table, p, cur), cur) != NOT_FOUND
    ensures Ordered(AddEntry(m.table, e)) <==> Proper(m.table, p, cur)
  {
    NewEntryKeepsTree(m, p, cur, e);
    NewParentBound(m, p, cur);
    LastIdBelow(m);
    NewEntryAddable(m.table, m.lastId, e);
    assert NameOfEntry(e) == NewName(p);
    hide NoOrphans, UniqueNames, WellNamed, NewName, ImageOk, Addable;
    AddedName(m.table, e);
    if NewName(p) != [] {
      AddedUnique(m.table, e);
    }
  }

  lemma MkOrdered(m: Image, p: seq<byte>, cur: u64)
    requires ImageOk(m) && Ordered(m.table) && |LastName(p)| <= 23
    ensures Ordered(MkFile(m, p, cur).0.table) <==>
      (MkFile(m, p, cur).1 == 0 && SlotWith(m.table, 0).Some? ==> Proper(m.table, p, cur))
  {
    if MkFile(m, p, cur).1 == 0 && SlotWith(m.table, 0).Some? {
      AddedOrdered(m, p, cur, FileEntry(m, p, cur, Regions.FirstFit(m.store.bits, REGION).value));
    }
  }

  lemma MkdirOrdered(m: Image, p: seq<byte>, cur: u64)
    requires ImageOk(m) && Ordered(m.table) && |LastName(p)| <= 23
    ensures Ordered(MkDir(m, p, cur).0.table) <==>
      (MkDir(m, p, cur).1 == 0 && SlotWith(m.table, 0).Some? ==> Proper(m.table, p, cur))
  {
    if MkDir(m, p, cur).1 == 0 && SlotWith(m.table, 0).Some? {
      AddedOrdered(m, p, cur, DirEntry(m, p, cur));
    }
  }

  // ---------------------------------------------------------------- writing and removing

  lemma SameTreeOrdered(t: seq<Entry>, t': seq<Entry>)
    requires SameTree(t, t')
    ensures Ordered(t) ==> Ordered(t')
  {
    if NoOrphans(t) {
      forall k | 0 <= k < |t'| && t'[k].id != 0 && t'[k].parent != 0
        ensures Live(t', t'[k].parent)
      {
        var j :| 0 <= j < |t| && t[j].id == t[k].parent != 0;
        assert t'[j].id == t[j].id;
      }
    }
  }

  lemma SameTreeIff(t: seq<Entry>, t': seq<Entry>)
    requires SameTree(t, t')
    ensures Ordered(t) <==> Ordered(t')
  {
    SameTreeOrdered(t, t');
    SameTreeOrdered(t', t);
  }

  lemma WriteSameTree(m: Image, id: u64, data: seq<byte>)
    requires ImageOk(m) && |data| < U64
    ensures SameTree(m.table, WriteById(m, id, data).0.table)
  {
    match FileSlot(m.table, id)
    case None =>
    case Some(k) => hide IdsOk, FileSlot;
  }

  lemma ErasedNames(t: seq<Entry>, k: nat)
    requires WellNamed(t) && UniqueNames(t) && k < |t|
    ensures WellNamed(t[k := FreeSlot()]) && UniqueNames(t[k := FreeSlot()])
  {
  }

  lemma RmNames(m: Image, id: u64)
    requires ImageOk(m) && WellNamed(m.table) && UniqueNames(m.table)
    ensures WellNamed(RmFileById(m, id).0.table) && UniqueNames(RmFileById(m, id).0.table)
    ensures WellNamed(RmDirById(m, id).0.table) && UniqueNames(RmDirById(m, id).0.table)
  {
    match SlotWith(m.table, id)
    case None =>
    case Some(k) =>
      ErasedNames(m.table, k);
      hide WellNamed, UniqueNames, IdsOk, MaxId;
  }

  // ---------------------------------------------------------------- copying

  /** The source is a file that fits the copy buffer. */
  ghost predicate SourceFits(m: Image, src: seq<byte>, cur: u64)
    requires ImageOk(m)
  {
    match FileSlot(m.table, IdOf(m.table, src, cur))
    case None => false
    case Some(k) => m.table[k].size <= COPY_MAX
  }

  /** The copy goes on to create its destination, and there is a slot for it. */
  ghost predicate CopyMakes(m: Image, src: seq<byte>, dst: seq<byte>, cur: u64)
    requires ImageOk(m) && |LastName(dst)| <= 23
  {
    && SourceFits(m, src, cur)
    && IdOf(m.table, dst, cur) == NOT_FOUND && MkFile(m, dst, cur).1 == 0 && SlotWith(m.table, 0).Some?
  }

  /** A copy prepares its destination and may then write to it. */
  lemma CopyTable(m: Image, src: seq<byte>, dst: seq<byte>, cur: u64)
    requires ImageOk(m) && |LastName(dst)| <= 23
    ensures SameTree(if CopyMakes(m, src, dst, cur) then MkFile(m, dst, cur).0.table else m.table,
                     CopyFile(m, src, dst, cur).0.table)
  {
    CopyPrepared(m, src, dst, cur);
    var m1 := CopyTarget(m, dst, cur).0;
    var d := CopyBytesParts(m1, src, dst, CopySize(m, src, cur), cur);
    hide CopyFile, CopyTarget, CopyBytes, CopySize, IdOf, WriteById, MkFile, CopyMakes;
    WriteSameTree(m1, IdOf(m1.table, dst, cur), d);
  }

  lemma CopyPrepared(m: Image, src: seq<byte>, dst: seq<byte>, cur: u64)
    requires ImageOk(m) && |LastName(dst)| <= 23
    ensures var m1, m' := CopyTarget(m, dst, cur).0, CopyFile(m, src, dst, cur).0;
      var t := if CopyMakes(m, src, dst, cur) then MkFile(m, dst, cur).0.table else m.table;
      m'.table == t || (m1.table == t && m' == CopyBytes(m1, src, dst, CopySize(m, src, cur), cur).0)
  {
    CopyGuards(m, src, dst, cur);
    TargetTable(m, dst, cur);
    hide IdOf, CopyFile, CopyTarget, CopyBytes, MkFile, ImageOk, CopySize;
  }

  lemma CopyGuards(m: Image, src: seq<byte>, dst: seq<byte>, cur: u64)
    requires ImageOk(m) && |LastName(dst)| <= 23
    ensures var (m1, c) := CopyTarget(m, dst, cur);
      var m' := CopyFile(m, src, dst, cur).0;
      if !SourceFits(m, src, cur) then m' == m
      else (m' == m && IdOf(m.table, dst, cur) != NOT_FOUND)
           || m' == if c != 0 then m1 else CopyBytes(m1, src, dst, CopySize(m, src, cur), cur).0
  {
    hide IdOf, Regions.GridOk, EntriesOk, CopyTarget, CopyBytes, IdsOk, MaxId;
  }

  lemma TargetTable(m: Image, dst: seq<byte>, cur: u64)
    requires ImageOk(m) && |LastName(dst)| <= 23
    ensures CopyTarget(m, dst, cur).0.table ==
      if IdOf(m.table, dst, cur) == NOT_FOUND && MkFile(m, dst, cur).1 == 0 && SlotWith(m.table, 0).Some?
        then MkFile(m, dst, cur).0.table else m.table
  {
    MkFull(m, dst, cur);
    hide IdOf, MkFile, IdsOk, MaxId;
  }

  lemma MkFull(m: Image, p: seq<byte>, cur: u64)
    requires ImageOk(m) && |LastName(p)| <= 23
    ensures MkFile(m, p, cur).1 != 0 || SlotWith(m.table, 0) == None ==> MkFile(m, p, cur).0.table == m.table
  {
  }

  lemma CopyOrdered(m: Image, src: seq<byte>, dst: seq<byte>, cur: u64)
    requires ImageOk(m) && Ordered(m.table) && |LastName(dst)| <= 23
    ensures Ordered(CopyFile(m, src, dst, cur).0.table) <==> (CopyMakes(m, src, dst, cur) ==> Proper(m.table, dst, cur))
  {
    CopyTable(m, src, dst, cur);
    MkOrdered(m, dst, cur);
    var t := if CopyMakes(m, src, dst, cur) then MkFile(m, dst, cur).0.table else m.table;
    assert CopyMakes(m, src, dst, cur) ==> MkFile(m, dst, cur).1 == 0 && SlotWith(m.table, 0).Some?;
    hide Ordered, CopyFile, MkFile, CopyMakes, Proper, SameTree;
    SameTreeIff(t, CopyFile(m, src, dst, cur).0.table);
  }

  // ---------------------------------------------------------------- runs

  /** The call adds no entry without a name or under a name that is taken, and removes no file that has children. */
  ghost predicate Tidy(m: Image, c: Call)
    requires ImageOk(m) && Legal(c)
  {
    match c
    case Mk(p, cur) => MkFile(m, p, cur).1 == 0 && SlotWith(m.table, 0).Some? ==> Proper(m.table, p, cur)
    case Mkdir(p, cur) => MkDir(m, p, cur).1 == 0 && SlotWith(m.table, 0).Some? ==> Proper(m.table, p, cur)
    case Copy(src, dst, cur) => CopyMakes(m, src, dst, cur) ==> Proper(m.table, dst, cur)
    case _ => Childless(m, c)
  }

  /** One call keeps the table ordered exactly when it is tidy. */
  lemma StepOrdered(m: Image, c: Call)
    requires ImageOk(m) && Legal(c) && Ordered(m.table)
    ensures Ordered(Step(m, c).table) <==> Tidy(m, c)
  {
    hide NoOrphans, WellNamed, UniqueNames, MkFile, MkDir, WriteById, RmFileById, RmDirById, CopyFile, CopyMakes, Proper;
    match c
    case Mk(p, cur) => MkOrdered(m, p, cur);
    case Mkdir(p, cur) => MkdirOrdered(m, p, cur);
    case Write(p, data, cur) =>
      WriteSameTree(m, IdOf(m.table, p, cur), data);
      SameTreeIff(m.table, Step(m, c).table);
    case Rm(p, cur) =>
      StepTree(m, c);
      RmNames(m, PathToId(m.table, p, cur));
    case Rmdir(p, cur) =>
      StepTree(m, c);
      RmNames(m, PathToId(m.table, p, cur));
    case Copy(src, dst, cur) => CopyOrdered(m, src, dst, cur);
    case Mount =>
  }

  ghost predicate TidyRun(m: Image, cs: seq<Call>)
    requires ImageOk(m) && forall c :: c in cs ==> Legal(c)
    decreases |cs|
  {
    cs == [] || (Tidy(m, cs[0]) && TidyRun(Step(m, cs[0]), cs[1..]))
  }

  /** Every state of the run is ordered. */
  ghost predicate OrderedThroughout(m: Image, cs: seq<Call>)
    requires ImageOk(m) && forall c :: c in cs ==> Legal(c)
    decreases |cs|
  {
    Ordered(m.table) && (cs != [] ==> OrderedThroughout(Step(m, cs[0]), cs[1..]))
  }

  lemma {:induction false} RunOrdered(m: Image, cs: seq<Call>)
    requires ImageOk(m) && Ordered(m.table) && forall c :: c in cs ==> Legal(c)
    ensures OrderedThroughout(m, cs) <==> TidyRun(m, cs)
    ensures TidyRun(m, cs) ==> Ordered(Run(m, cs).table)
    decreases |cs|
  {
    if cs != [] {
      StepOrdered(m, cs[0]);
      hide Ordered, Tidy, Step, Legal;
      if Tidy(m, cs[0]) {
        RunOrdered(Step(m, cs[0]), cs[1..]);
      } else {
        NotOrdered(Step(m, cs[0]), cs[1..]);
      }
    }
  }

  lemma NotOrdered(m: Image, cs: seq<Call>)
    requires ImageOk(m) && !Ordered(m.table) && forall c :: c in cs ==> Legal(c)
    ensures !OrderedThroughout(m, cs)
  {
  }

  /** After every tidy run, from an ordered volume such as a formatted one, every live entry whose path is not too
      long is found by it. */
  lemma RunPathsResolve(m: Image, cs: seq<Call>, k: nat, cur: u64)
    requires ImageOk(m) && Ordered(m.table) && (forall c :: c in cs ==> Legal(c)) && TidyRun(m, cs)
    ensures var t := Run(m, cs).table;
      ImageOk(Run(m, cs)) && (k < TABLE_ENTRIES && t[k].id != 0 && |PathOf(t, t[k].id)| <= 1023 ==>
        PathToId(t, PathOf(t, t[k].id), cur) == t[k].id)
  {
    RunOrdered(m, cs);
    hide Run, Ordered, TidyRun, PathOf, PathToId;
    var t := Run(m, cs).table;
    if k < TABLE_ENTRIES && t[k].id != 0 && |PathOf(t, t[k].id)| <= 1023 {
      PathsResolve(t, k, cur);
    }
  }
}
