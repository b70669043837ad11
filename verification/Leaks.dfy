/** Regions that are taken but belong to no file: which calls make them, and which do not. */
module Leaks {
  import opened Bytes
  import opened Regions
  import opened Chains
  import Entries
  import opened Disk
  import opened Table
  import Names
  import PathNames
  import opened FileSystem
  import opened Separation
  import Transfers

  /** Region `q` is taken, and no file's chain has it. */
  ghost predicate Unowned(m: Image, cs: seq<seq<nat>>, q: nat) {
    && InGrid(|m.store.bits|, REGION, q) && m.store.bits[q]
    && |cs| == |m.table| && forall k :: 0 <= k < |cs| && IsFile(m.table[k]) ==> q !in cs[k]
  }

  // ---------------------------------------------------------------- writing

  /** The regions that a write to a file with chain `ch` leaves without an owner: the tail of the old chain that
      the data no longer needs, or everything behind a pointer to region 0. */
  function Dropped(st: Store, ch: seq<nat>, vis: seq<nat>): (d: seq<nat>)
    requires st.bits != []
  {
    if |vis| <= |ch| then ch[|vis|..] else if st.bits[0] then [] else vis[|ch|..]
  }

  /** Data of this length needs the whole old chain, and all of what it needs can be reached. */
  predicate KeepsAll(st: Store, ch: seq<nat>, len: nat)
    requires st.bits != []
  {
    (|ch| > 1 ==> len > Room(REGION, |ch| - 1)) && (st.bits[0] || len <= Room(REGION, |ch|))
  }

  /** A write that does not need its whole old chain stores everything. */
  lemma {:induction false} ShortVisit(st: Store, n: nat, ch: seq<nat>, data: seq<byte>)
    requires Sound(st, n, ch) && |WriteFrom(st, n, ch[0], data).visited| < |ch|
    ensures WriteFrom(st, n, ch[0], data).size == |data|
    decreases |data|
  {
    var cap, r := Capacity(n), ch[0];
    LinkedInGrid(st, n, ch);
    if |data| > cap {
      var (st1, next) := Grow(st, n, r).value;
      SoundStep(st, n, ch, data[..cap], st1, next);
      ShortVisit(Put(st1, n, r, data[..cap], next), n, ch[1..], data[cap..]);
    }
  }

  /** A write stops short of the old chain's end exactly when the data fits without the last region. */
  lemma StopsShort(st: Store, ch: seq<nat>, data: seq<byte>)
    requires Sound(st, REGION, ch)
    ensures |WriteFrom(st, REGION, ch[0], data).visited| < |ch| <==> |ch| > 1 && |data| <= Room(REGION, |ch| - 1)
  {
    hide WriteFrom, Room;
    var w := WriteFrom(st, REGION, ch[0], data);
    WriteSize(st, REGION, ch[0], data);
    if |w.visited| < |ch| {
      ShortVisit(st, REGION, ch, data);
      RoomGrows(REGION, |w.visited|, |ch| - 1);
    } else if |ch| > 1 {
      RoomGrows(REGION, |ch| - 1, |w.visited| - 1);
    }
  }

  /** With region 0 free, a write goes past the old chain exactly when the data does not fit it. */
  lemma GoesPast(st: Store, ch: seq<nat>, data: seq<byte>)
    requires Sound(st, REGION, ch) && st.bits != [] && !st.bits[0]
    ensures |WriteFrom(st, REGION, ch[0], data).visited| > |ch| <==> |data| > Room(REGION, |ch|)
  {
    hide WriteFrom, Room;
    var w := WriteFrom(st, REGION, ch[0], data);
    WriteSize(st, REGION, ch[0], data);
    if |w.visited| > |ch| {
      RoomGrows(REGION, |ch|, |w.visited| - 1);
    } else {
      Transfers.StoresAll(st, REGION, ch, data);
      RoomGrows(REGION, |w.visited|, |ch|);
    }
  }

  lemma DroppedEmpty(st: Store, ch: seq<nat>, vis: seq<nat>)
    requires st.bits != []
    ensures Dropped(st, ch, vis) == [] <==> |vis| >= |ch| && (st.bits[0] || |vis| <= |ch|)
  {
    if |vis| < |ch| {
      assert |ch[|vis|..]| > 0;
    } else if |vis| > |ch| {
      assert |vis[|ch|..]| > 0;
    }
  }

  lemma NothingDropped(st: Store, ch: seq<nat>, data: seq<byte>)
    requires Sound(st, REGION, ch)
    ensures st.bits != []
    ensures Dropped(st, ch, WriteFrom(st, REGION, ch[0], data).visited) == [] <==> KeepsAll(st, ch, |data|)
  {
    LinkedInGrid(st, REGION, ch);
    StopsShort(st, ch, data);
    if !st.bits[0] { GoesPast(st, ch, data); }
    hide WriteFrom, Room, Sound, Dropped;
    DroppedEmpty(st, ch, WriteFrom(st, REGION, ch[0], data).visited);
  }

  /** The write's own regions: what it drops is taken, and is neither in the new chain nor anyone else's. */
  lemma DroppedAre(st: Store, ch: seq<nat>, data: seq<byte>, q: nat)
    requires Sound(st, REGION, ch) && InGrid(|st.bits|, REGION, q)
    ensures st.bits != []
    ensures var w := WriteFrom(st, REGION, ch[0], data);
      (w.store.bits[q] && q !in w.visited[..Cut(w.visited)])
      <==> (st.bits[q] && q !in ch) || q in Dropped(st, ch, w.visited)
  {
    var w := WriteFrom(st, REGION, ch[0], data);
    LinkedInGrid(st, REGION, ch);
    WriteCut(st, REGION, ch, data);
    WriteVisits(st, REGION, ch, data);
    WriteTouches(st, REGION, ch[0], data);
    GroupOf(q, REGION, q);
    DroppedSplit(st.bits, ch, w.store.bits, w.visited, q);
  }

  lemma DroppedSplit(bits: seq<bool>, ch: seq<nat>, bits': seq<bool>, vis: seq<nat>, q: nat)
    requires ch != [] && vis != [] && Visits(bits, ch, bits', vis) && Taken(bits, ch) && Distinct(ch) && |bits| == |bits'|
    requires q < |bits| && (bits[q] ==> bits'[q]) && (bits'[q] && !bits[q] ==> q in vis)
    requires Cut(vis) == if |vis| > |ch| && !bits[0] then |ch| else |vis|
    ensures bits'[q] && q !in vis[..Cut(vis)]
      <==> (bits[q] && q !in ch) || q in (if |vis| <= |ch| then ch[|vis|..] else if bits[0] then [] else vis[|ch|..])
  {
    if |vis| <= |ch| {
      assert vis[..Cut(vis)] == ch[..|vis|];
      assert ch == ch[..|vis|] + ch[|vis|..];
    } else {
      assert vis == ch + vis[|ch|..];
      if bits[0] { assert vis[..Cut(vis)] == vis; } else { assert vis[..Cut(vis)] == ch; }
      forall k | |ch| <= k < |vis|
        ensures vis[k] !in ch && !bits[vis[k]]
      {
        assert vis[k] in vis;
        forall j | 0 <= j < |ch|
          ensures ch[j] != vis[k]
        {
          assert vis[j] == ch[j];
        }
      }
    }
  }

  lemma DroppedOnlyHere(m: Image, cs: seq<seq<nat>>, k: nat, data: seq<byte>, j: nat, q: nat)
    requires SepOk(m, cs) && k < TABLE_ENTRIES && j < TABLE_ENTRIES && j != k && IsFile(m.table[k]) && IsFile(m.table[j])
    requires q in cs[j]
    ensures m.store.bits != [] && q !in cs[k]
    ensures q !in Dropped(m.store, cs[k], WriteFrom(m.store, REGION, m.table[k].frame, data).visited)
  {
    ApartOf(m.store, m.table, cs, j, k);
    var w := WriteFrom(m.store, REGION, cs[k][0], data);
    LinkedInGrid(m.store, REGION, cs[k]);
    WriteVisits(m.store, REGION, cs[k], data);
  }

  /** After a write exactly those regions are newly without an owner which it drops; it drops none exactly when
      the data needs the whole old chain and either fits it or finds region 0 taken. */
  lemma WriteUnowned(m: Image, cs: seq<seq<nat>>, k: nat, data: seq<byte>) returns (cs': seq<seq<nat>>)
    requires SepOk(m, cs) && k < TABLE_ENTRIES && IsFile(m.table[k]) && |data| + 7 < U64
    ensures SepOk(WriteById(m, m.table[k].id, data).0, cs') && m.store.bits != []
    ensures var d := Dropped(m.store, cs[k], WriteFrom(m.store, REGION, m.table[k].frame, data).visited);
      && (forall q: nat :: Unowned(WriteById(m, m.table[k].id, data).0, cs', q) <==> Unowned(m, cs, q) || q in d)
      && (d == [] <==> KeepsAll(m.store, cs[k], |data|))
  {
    Names.SlotIs(m.table, k);
    cs' := WriteSeparated(m, cs, m.table[k].id, data);
    var m' := WriteById(m, m.table[k].id, data).0;
    NothingDropped(m.store, cs[k], data);
    forall q: nat
      ensures Unowned(m', cs', q) <==>
        Unowned(m, cs, q) || q in Dropped(m.store, cs[k], WriteFrom(m.store, REGION, m.table[k].frame, data).visited)
    {
      WriteUnownedAt(m, cs, k, data, m', cs', q);
    }
  }

  lemma DroppedInGrid(st: Store, ch: seq<nat>, data: seq<byte>, q: nat)
    requires Sound(st, REGION, ch) && st.bits != [] && q in Dropped(st, ch, WriteFrom(st, REGION, ch[0], data).visited)
    ensures InGrid(|st.bits|, REGION, q)
  {
    LinkedInGrid(st, REGION, ch);
    WriteTouches(st, REGION, ch[0], data);
  }

  lemma WriteUnownedAt(m: Image, cs: seq<seq<nat>>, k: nat, data: seq<byte>, m': Image, cs': seq<seq<nat>>, q: nat)
    requires SepOk(m, cs) && k < TABLE_ENTRIES && IsFile(m.table[k]) && m.store.bits != []
    requires var w := WriteFrom(m.store, REGION, m.table[k].frame, data);
      && m'.store == w.store && |m'.table| == |m.table| && IsFile(m'.table[k])
      && (forall j :: 0 <= j < |m.table| && j != k ==> m'.table[j] == m.table[j])
      && cs' == cs[k := w.visited[..Cut(w.visited)]]
    ensures Unowned(m', cs', q) <==>
      Unowned(m, cs, q) || q in Dropped(m.store, cs[k], WriteFrom(m.store, REGION, m.table[k].frame, data).visited)
  {
    var d := Dropped(m.store, cs[k], WriteFrom(m.store, REGION, m.table[k].frame, data).visited);
    if q in d {
      DroppedInGrid(m.store, cs[k], data, q);
    }
    if InGrid(|m.store.bits|, REGION, q) {
      DroppedAre(m.store, cs[k], data, q);
      forall j | 0 <= j < TABLE_ENTRIES && j != k && IsFile(m.table[j]) && q in cs[j]
        ensures q !in d && q !in cs[k]
      {
        DroppedOnlyHere(m, cs, k, data, j, q);
      }
      OwnersSame(m, cs, m', cs', k, q);
    }
  }

  /** No file but perhaps the one in slot `k` owns `q`. */
  ghost predicate NotOthers(t: seq<Entries.Entry>, cs: seq<seq<nat>>, k: nat, q: nat) {
    |cs| == |t| && forall j :: 0 <= j < |cs| && j != k && IsFile(t[j]) ==> q !in cs[j]
  }

  /** Apart from slot `k`, the same files own the same regions. */
  lemma OwnersSame(m: Image, cs: seq<seq<nat>>, m': Image, cs': seq<seq<nat>>, k: nat, q: nat)
    requires |cs| == |cs'| == |m.table| == |m'.table| && k < |cs|
    requires forall j :: 0 <= j < |cs| && j != k ==> m'.table[j] == m.table[j] && cs'[j] == cs[j]
    requires InGrid(|m.store.bits|, REGION, q) && |m'.store.bits| == |m.store.bits|
    ensures NotOthers(m'.table, cs', k, q) == NotOthers(m.table, cs, k, q)
    ensures Unowned(m', cs', q)
      == (m'.store.bits[q] && NotOthers(m.table, cs, k, q) && (IsFile(m'.table[k]) ==> q !in cs'[k]))
    ensures Unowned(m, cs, q)
      == (m.store.bits[q] && NotOthers(m.table, cs, k, q) && (IsFile(m.table[k]) ==> q !in cs[k]))
  {
  }

  // ---------------------------------------------------------------- creating and removing

  /** A creation leaves a region without an owner exactly when the table is full: the one it takes. */
  lemma MkUnowned(m: Image, cs: seq<seq<nat>>, p: seq<byte>, cur: u64) returns (cs': seq<seq<nat>>)
    requires SepOk(m, cs) && |PathNames.LastName(p)| <= 23 && MkFile(m, p, cur).1 == 0
    ensures SepOk(MkFile(m, p, cur).0, cs') && FirstFit(m.store.bits, REGION).Some?
    ensures forall q: nat :: Unowned(MkFile(m, p, cur).0, cs', q) <==>
      Unowned(m, cs, q) || (SlotWith(m.table, 0) == None && q == FirstFit(m.store.bits, REGION).value)
    ensures SlotWith(m.table, 0) == None ==>
      cs' == cs && MkFile(m, p, cur).0.table == m.table && !Unowned(m, cs, FirstFit(m.store.bits, REGION).value)
  {
    cs' := MkFileSeparated(m, cs, p, cur);
    var f := FirstFit(m.store.bits, REGION).value;
    forall q: nat
      ensures Unowned(MkFile(m, p, cur).0, cs', q) <==> Unowned(m, cs, q) || (SlotWith(m.table, 0) == None && q == f)
    {
      if InGrid(|m.store.bits|, REGION, q) {
        MkUnownedAt(m, cs, p, cur, cs', q);
      } else {
        FirstFitOnGrid(m.store.bits, REGION);
      }
    }
  }

  lemma TakenAt(bits: seq<bool>, f: nat, q: nat)
    requires InGrid(|bits|, REGION, f) && InGrid(|bits|, REGION, q)
    ensures Mark(bits, f, REGION, true)[q] == (bits[q] || q == f)
  {
    GroupOf(q, REGION, f);
    GroupOf(q, REGION, q);
  }

  lemma MkUnownedAt(m: Image, cs: seq<seq<nat>>, p: seq<byte>, cur: u64, cs': seq<seq<nat>>, q: nat)
    requires SepOk(m, cs) && |PathNames.LastName(p)| <= 23 && MkFile(m, p, cur).1 == 0 && InGrid(|m.store.bits|, REGION, q)
    requires cs' == match SlotWith(m.table, 0) case None => cs case Some(k) => cs[k := [FirstFit(m.store.bits, REGION).value]]
    ensures Unowned(MkFile(m, p, cur).0, cs', q) <==>
      Unowned(m, cs, q) || (SlotWith(m.table, 0) == None && q == FirstFit(m.store.bits, REGION).value)
  {
    var m', f := MkFile(m, p, cur).0, FirstFit(m.store.bits, REGION).value;
    FirstFitOnGrid(m.store.bits, REGION);
    LastIdBelow(m);
    assert m'.store.bits == Mark(m.store.bits, f, REGION, true);
    match SlotWith(m.table, 0)
    case None =>
      TakenUnowned(m, cs, m', f, q);
    case Some(k) =>
      assert m'.table == m.table[k := FileEntry(m, p, cur, f)] && !IsFile(m.table[k]);
      hide MkFile, FileEntry;
      GivenUnowned(m, cs, m', cs', k, f, q);
  }

  /** A region taken for nobody. */
  lemma TakenUnowned(m: Image, cs: seq<seq<nat>>, m': Image, f: nat, q: nat)
    requires SepOk(m, cs) && InGrid(|m.store.bits|, REGION, q) && InGrid(|m.store.bits|, REGION, f) && !m.store.bits[f]
    requires m'.table == m.table && m'.store.bits == Mark(m.store.bits, f, REGION, true)
    ensures Unowned(m', cs, q) <==> Unowned(m, cs, q) || q == f
  {
    TakenAt(m.store.bits, f, q);
    OwnersTaken(m, cs, f);
  }

  /** A region taken for the file in slot `k`. */
  lemma GivenUnowned(m: Image, cs: seq<seq<nat>>, m': Image, cs': seq<seq<nat>>, k: nat, f: nat, q: nat)
    requires SepOk(m, cs) && InGrid(|m.store.bits|, REGION, q) && InGrid(|m.store.bits|, REGION, f) && !m.store.bits[f]
    requires m'.store.bits == Mark(m.store.bits, f, REGION, true) && |m'.table| == |m.table| && k < |m.table|
    requires (forall j :: 0 <= j < |m.table| && j != k ==> m'.table[j] == m.table[j])
    requires IsFile(m'.table[k]) && !IsFile(m.table[k]) && cs' == cs[k := [f]]
    ensures Unowned(m', cs', q) <==> Unowned(m, cs, q)
  {
    TakenAt(m.store.bits, f, q);
    OwnersSame(m, cs, m', cs', k, q);
  }

  /** A free region belongs to nobody. */
  lemma OwnersTaken(m: Image, cs: seq<seq<nat>>, f: nat)
    requires SepOk(m, cs) && f < |m.store.bits| && !m.store.bits[f]
    ensures forall j :: 0 <= j < |cs| && IsFile(m.table[j]) ==> f !in cs[j]
  {
  }

  /** A removal leaves no region without an owner that had one. */
  lemma RmUnowned(m: Image, cs: seq<seq<nat>>, k: nat, q: nat)
    requires SepOk(m, cs) && k < TABLE_ENTRIES && IsFile(m.table[k])
    ensures Unowned(RmFileById(m, m.table[k].id).0, cs[k := []], q) <==> Unowned(m, cs, q)
  {
    var e := m.table[k];
    Names.SlotIs(m.table, k);
    FreeEndsAfterFree(m.store, e, cs[k]);
    if InGrid(|m.store.bits|, REGION, q) {
      GroupOf(q, REGION, q);
      LinkedInGrid(m.store, REGION, cs[k]);
      OwnersSame(m, cs, RmFileById(m, e.id).0, cs[k := []], k, q);
      if q in cs[k] {
        assert m.store.bits[q];
      }
    }
  }
}
