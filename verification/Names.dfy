/** The tree that the entry table encodes by parent ids: looking paths up, printing them, adding to it. */
module Names {
  import opened Bytes
  import opened Entries
  import opened Table
  import opened Paths

  // ---------------------------------------------------------------- what every run keeps of the table

  /** Free slots are zero; ids are unique; every parent id is below its child's id, also an orphan's. */
  ghost predicate IdsOk(t: seq<Entry>) {
    && (forall k :: 0 <= k < |t| && t[k].id == 0 ==> t[k] == FreeSlot())
    && (forall j, k :: 0 <= j < k < |t| && t[j].id != 0 ==> t[j].id != t[k].id)
    && (forall k :: 0 <= k < |t| && t[k].id != 0 ==> t[k].parent < t[k].id < NOT_FOUND)
  }

  function NameOfEntry(e: Entry): seq<byte> { CString(e.name) }

  ghost predicate WellNamed(t: seq<Entry>) {
    forall k :: 0 <= k < |t| && t[k].id != 0 ==> IsWord(NameOfEntry(t[k])) && |NameOfEntry(t[k])| <= 23
  }

  ghost predicate UniqueNames(t: seq<Entry>) {
    forall j, k :: 0 <= j < k < |t| && t[j].id != 0 && t[k].id != 0 && t[j].parent == t[k].parent ==>
      NameOfEntry(t[j]) != NameOfEntry(t[k])
  }

  lemma FreeNameEmpty(e: Entry)
    requires e == FreeSlot()
    ensures NameOfEntry(e) == []
  {
  }

  lemma SlotIs(t: seq<Entry>, k: nat)
    requires IdsOk(t) && k < |t| && t[k].id != 0
    ensures SlotWith(t, t[k].id) == Some(k)
  {
  }

  lemma MatchIs(e: Entry, w: seq<byte>, parent: u64)
    requires |NameOfEntry(e)| <= 23
    ensures Matches(e, w, parent) <==> NameOfEntry(e) == w && e.parent == parent
  {
    if |w| <= 24 {
      assert w[..Min(|w|, 24)] == w;
    }
  }

  /** A word found in the table is the name of a live entry. */
  lemma FoundEntry(t: seq<Entry>, w: seq<byte>, parent: u64) returns (k: nat)
    requires IdsOk(t) && WellNamed(t) && w != [] && Lookup(t, w, parent) != NOT_FOUND
    ensures SlotNamed(t, w, parent) == Some(k) && k < |t| && t[k].id == Lookup(t, w, parent) != 0
    ensures SlotWith(t, t[k].id) == Some(k) && NameOfEntry(t[k]) == w && t[k].parent == parent
  {
    k := SlotNamed(t, w, parent).value;
    if t[k].id == 0 { FreeNameEmpty(t[k]); }
    MatchIs(t[k], w, parent);
    SlotIs(t, k);
  }

  lemma LookupEntry(t: seq<Entry>, k: nat)
    requires IdsOk(t) && WellNamed(t) && UniqueNames(t) && k < |t| && t[k].id != 0
    ensures Lookup(t, NameOfEntry(t[k]), t[k].parent) == t[k].id
  {
    var w, parent := NameOfEntry(t[k]), t[k].parent;
    MatchIs(t[k], w, parent);
    forall j | 0 <= j < k
      ensures !Matches(t[j], w, parent)
    {
      if t[j].id == 0 { FreeNameEmpty(t[j]); }
      MatchIs(t[j], w, parent);
    }
    FirstMatch(t, w, parent, k);
  }

  // ---------------------------------------------------------------- walking down

  function Walk(t: seq<Entry>, ws: Words, from: u64): u64
    decreases |ws|
  {
    if ws == [] then from else Walk(t, ws[1..], Lookup(t, ws[0], from))
  }

  lemma {:induction false} WalkAppend(t: seq<Entry>, ws: Words, w: seq<byte>, from: u64)
    ensures Walk(t, ws + [w], from) == Lookup(t, w, Walk(t, ws, from))
    decreases |ws|
  {
    if ws == [] {
      assert (ws + [w])[1..] == [];
    } else {
      assert (ws + [w])[1..] == ws[1..] + [w];
      WalkAppend(t, ws[1..], w, Lookup(t, ws[0], from));
    }
  }

  lemma {:induction false} WalkOn(t: seq<Entry>, ws: Words, more: Words, from: u64)
    ensures Walk(t, ws + more, from) == Walk(t, more, Walk(t, ws, from))
    decreases |ws|
  {
    if ws == [] {
      assert ws + more == more;
    } else {
      assert (ws + more)[1..] == ws[1..] + more;
      WalkOn(t, ws[1..], more, Lookup(t, ws[0], from));
    }
  }

  /** Nothing has 2^64-1 as its parent, so a component not found stays not found. */
  lemma {:induction false} WalkNotFound(t: seq<Entry>, ws: Words)
    requires IdsOk(t)
    ensures Walk(t, ws, NOT_FOUND) == NOT_FOUND
    decreases |ws|
  {
    if ws != [] {
      assert Lookup(t, ws[0], NOT_FOUND) == NOT_FOUND;
      WalkNotFound(t, ws[1..]);
    }
  }

  predicate IsAbsolute(p: seq<byte>) {
    p != [] && p[0] == SLASH
  }

  /** `path_to_id` */
  function PathToId(t: seq<Entry>, p: seq<byte>, cur: u64): u64 {
    if p == [DOT] then cur
    else Walk(t, Split(Truncated(p)), if IsAbsolute(p) then 0 else cur)
  }

  // ---------------------------------------------------------------- printing

  /** The names on the way from the root to `id`; an orphan's start at its highest live ancestor. */
  function NamesTo(t: seq<Entry>, id: u64): (ws: Words)
    requires IdsOk(t)
    decreases id
  {
    match SlotWith(t, id)
    case None => []
    case Some(k) =>
      if t[k].parent == 0 then [NameOfEntry(t[k])]
      else NamesTo(t, t[k].parent) + [NameOfEntry(t[k])]
  }

  /** `id_to_path` */
  function PathOf(t: seq<Entry>, id: u64): (p: seq<byte>)
    requires IdsOk(t)
  {
    [SLASH] + Join(NamesTo(t, id))
  }

  /** `id` and all its ancestors are live. */
  ghost predicate Rooted(t: seq<Entry>, id: u64)
    requires IdsOk(t)
    decreases id
  {
    match SlotWith(t, id)
    case None => false
    case Some(k) => id != 0 && (t[k].parent == 0 || Rooted(t, t[k].parent))
  }

  lemma {:induction false} WalkToRooted(t: seq<Entry>, id: u64)
    requires IdsOk(t) && WellNamed(t) && UniqueNames(t) && Rooted(t, id)
    ensures Walk(t, NamesTo(t, id), 0) == id && AreWords(NamesTo(t, id))
    decreases id
  {
    var k := SlotWith(t, id).value;
    var w := NameOfEntry(t[k]);
    LookupEntry(t, k);
    if t[k].parent == 0 {
      WalkAppend(t, [], w, 0);
      assert [] + [w] == [w];
    } else {
      WalkToRooted(t, t[k].parent);
      WalkAppend(t, NamesTo(t, t[k].parent), w, 0);
    }
  }

  /** Printing the path of a live entry with live ancestors and looking it up gives the entry back. */
  lemma PrintThenParse(t: seq<Entry>, id: u64, cur: u64)
    requires IdsOk(t) && WellNamed(t) && UniqueNames(t) && Rooted(t, id) && |PathOf(t, id)| <= 1023
    ensures PathToId(t, PathOf(t, id), cur) == id
  {
    WalkToRooted(t, id);
    SplitAbsolute(NamesTo(t, id));
  }

  lemma {:induction false} RootedByWalk(t: seq<Entry>, ws: Words)
    requires IdsOk(t) && WellNamed(t) && AreWords(ws) && ws != [] && Walk(t, ws, 0) != NOT_FOUND
    ensures Rooted(t, Walk(t, ws, 0)) && NamesTo(t, Walk(t, ws, 0)) == ws
    decreases |ws|
  {
    var init, w := ws[..|ws| - 1], ws[|ws| - 1];
    assert ws == init + [w] && AreWords(init);
    var p, id := Walk(t, init, 0), Walk(t, ws, 0);
    WalkAppend(t, init, w, 0);
    assert IsWord(w);
    var k := FoundEntry(t, w, p);
    if init == [] {
      assert p == 0 && NamesTo(t, id) == [w] == ws;
    } else {
      RootedByWalk(t, init);
      assert NamesTo(t, id) == NamesTo(t, p) + [w];
    }
  }

  /** Looking up a path made of words and printing what it finds gives the path back. */
  lemma ParseThenPrint(t: seq<Entry>, ws: Words, cur: u64)
    requires IdsOk(t) && WellNamed(t) && AreWords(ws) && ws != []
    requires |[SLASH] + Join(ws)| <= 1023
    requires PathToId(t, [SLASH] + Join(ws), cur) != NOT_FOUND
    ensures PathOf(t, PathToId(t, [SLASH] + Join(ws), cur)) == [SLASH] + Join(ws)
    ensures Rooted(t, PathToId(t, [SLASH] + Join(ws), cur))
  {
    SplitAbsolute(ws);
    assert ([SLASH] + Join(ws))[0] == SLASH;
    RootedByWalk(t, ws);
  }

  // ---------------------------------------------------------------- adding an entry

  /** `e` can be added to `t`: its id is new and above every id there, and its parent below it. */
  ghost predicate Addable(t: seq<Entry>, e: Entry) {
    && IdsOk(t) && SlotWith(t, 0).Some? && 0 < e.id < NOT_FOUND && e.parent < e.id
    && (forall k :: 0 <= k < |t| ==> t[k].id < e.id)
  }

  lemma AddKeepsIds(t: seq<Entry>, e: Entry)
    requires Addable(t, e)
    ensures IdsOk(AddEntry(t, e))
  {
  }

  /** Adding changes the lookup of exactly one name under one parent. */
  lemma LookupAdded(t: seq<Entry>, e: Entry, w: seq<byte>, parent: u64)
    requires Addable(t, e) && WellNamed(t) && IsWord(NameOfEntry(e)) && |NameOfEntry(e)| <= 23
    requires Lookup(t, NameOfEntry(e), e.parent) == NOT_FOUND && w != []
    ensures Lookup(AddEntry(t, e), w, parent)
         == if w == NameOfEntry(e) && parent == e.parent then e.id else Lookup(t, w, parent)
  {
    var t', k := AddEntry(t, e), SlotWith(t, 0).value;
    FreeNameEmpty(t[k]);
    MatchIs(t[k], w, parent);
    MatchIs(e, w, parent);
    MatchIs(e, NameOfEntry(e), e.parent);
    if Matches(e, w, parent) {
      forall j | 0 <= j < |t|
        ensures !Matches(t[j], w, parent)
      {
        NoMatch(t, w, parent, j);
      }
      FirstMatch(t', w, parent, k);
    } else {
      SameMatches(t, t', w, parent);
    }
  }

  lemma NoMatch(t: seq<Entry>, w: seq<byte>, parent: u64, j: nat)
    requires IdsOk(t) && Lookup(t, w, parent) == NOT_FOUND && j < |t|
    ensures !Matches(t[j], w, parent)
  {
  }

  lemma SameMatches(t: seq<Entry>, t': seq<Entry>, w: seq<byte>, parent: u64)
    requires |t| == |t'|
    requires forall j :: 0 <= j < |t| ==> Matches(t'[j], w, parent) == Matches(t[j], w, parent)
    requires forall j :: 0 <= j < |t| && Matches(t[j], w, parent) ==> t'[j].id == t[j].id
    ensures Lookup(t', w, parent) == Lookup(t, w, parent)
  {
    match SlotNamed(t, w, parent)
    case None =>
    case Some(k) => FirstMatch(t', w, parent, k);
  }

  /** An entry to be added under a name that does not resolve yet. */
  ghost predicate Fresh(t: seq<Entry>, e: Entry) {
    && Addable(t, e) && WellNamed(t) && IsWord(NameOfEntry(e)) && |NameOfEntry(e)| <= 23
    && Lookup(t, NameOfEntry(e), e.parent) == NOT_FOUND
  }

  lemma AddKeepsNames(t: seq<Entry>, e: Entry)
    requires Fresh(t, e)
    ensures WellNamed(AddEntry(t, e))
    ensures UniqueNames(t) ==> UniqueNames(AddEntry(t, e))
  {
    var t' := AddEntry(t, e);
    forall j | 0 <= j < |t| && t[j].id != 0
      ensures !(NameOfEntry(t[j]) == NameOfEntry(e) && t[j].parent == e.parent)
    {
      NoMatch(t, NameOfEntry(e), e.parent, j);
      MatchIs(t[j], NameOfEntry(e), e.parent);
    }
  }

  /** From the new entry nothing is reached: no parent id is as high as the new id. */
  lemma {:induction false} WalkFromNew(t: seq<Entry>, e: Entry, ws: Words)
    requires Fresh(t, e) && AreWords(ws)
    ensures Walk(AddEntry(t, e), ws, e.id) == if ws == [] then e.id else NOT_FOUND
  {
    if ws != [] {
      var t' := AddEntry(t, e);
      AddKeepsIds(t, e);
      forall j | 0 <= j < |t'|
        ensures !Matches(t'[j], ws[0], e.id)
      {
      }
      assert Lookup(t', ws[0], e.id) == NOT_FOUND;
      WalkNotFound(t', ws[1..]);
    }
  }

  /** After an entry has been added under an unresolved name, a walk finds what it found before; a
      walk that found nothing finds the new entry exactly when it is the path to it. */
  lemma {:induction false} WalkAdded(t: seq<Entry>, e: Entry, ws: Words, from: u64)
    requires Fresh(t, e) && AreWords(ws) && from != e.id && (from == NOT_FOUND ==> e.parent != NOT_FOUND)
    ensures Walk(AddEntry(t, e), ws, from)
         == if Walk(t, ws, from) != NOT_FOUND then Walk(t, ws, from)
            else if ws != [] && ws[|ws| - 1] == NameOfEntry(e) && Walk(t, ws[..|ws| - 1], from) == e.parent then e.id
            else NOT_FOUND
    decreases |ws|
  {
    hide Lookup, AddEntry, NameOfEntry, WellNamed, SlotWith;
    if ws != [] {
      var w, at := ws[0], Lookup(t, ws[0], from);
      assert IsWord(w);
      LookupAdded(t, e, w, from);
      assert ws[1..] != [] ==> ws[..|ws| - 1][1..] == ws[1..][..|ws| - 2] && ws[..|ws| - 1][0] == w;
      if w == NameOfEntry(e) && from == e.parent {
        WalkFromNew(t, e, ws[1..]);
        WalkNotFound(t, ws[1..]);
        if ws[1..] != [] { WalkNotFound(t, ws[1..][..|ws| - 2]); }
      } else {
        assert at != e.id by { NotNewYet(t, e, w, from); }
        WalkAdded(t, e, ws[1..], at);
      }
    }
  }

  lemma NotNewYet(t: seq<Entry>, e: Entry, w: seq<byte>, from: u64)
    requires Fresh(t, e)
    ensures Lookup(t, w, from) != e.id
  {
  }

  // ---------------------------------------------------------------- entries that change in size only

  /** Two tables that differ in sizes only resolve and print every path alike. */
  ghost predicate SameTree(t: seq<Entry>, t': seq<Entry>) {
    |t| == |t'| && forall k :: 0 <= k < |t| ==>
      t'[k].id == t[k].id && t'[k].parent == t[k].parent && t'[k].name == t[k].name
  }

  lemma SameLookup(t: seq<Entry>, t': seq<Entry>, w: seq<byte>, parent: u64)
    requires SameTree(t, t')
    ensures Lookup(t', w, parent) == Lookup(t, w, parent)
  {
    forall j | 0 <= j < |t|
      ensures Matches(t'[j], w, parent) == Matches(t[j], w, parent)
    {
    }
    SameMatches(t, t', w, parent);
  }

  lemma {:induction false} SameWalk(t: seq<Entry>, t': seq<Entry>, ws: Words, from: u64)
    requires SameTree(t, t')
    ensures Walk(t', ws, from) == Walk(t, ws, from)
    decreases |ws|
  {
    if ws != [] {
      SameLookup(t, t', ws[0], from);
      SameWalk(t, t', ws[1..], Lookup(t, ws[0], from));
    }
  }

  lemma {:induction false} SameNames(t: seq<Entry>, t': seq<Entry>, id: u64)
    requires SameTree(t, t') && IdsOk(t) && IdsOk(t')
    ensures NamesTo(t', id) == NamesTo(t, id)
    decreases id
  {
    match SlotWith(t, id)
    case None =>
      assert forall j :: 0 <= j < |t'| ==> t'[j].id != id;
    case Some(k) =>
      FirstWith(t', id, k);
      if t[k].parent != 0 { SameNames(t, t', t[k].parent); }
  }
}
