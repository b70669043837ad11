/** Why files stay apart only while removals are of one-region files: a removal leaves the pointers of
    the regions it frees, and a later write follows them. */
module Removal {
  import opened Bytes
  import opened Regions
  import opened Chains
  import Entries
  import opened FileSystem
  import opened Separation
  import FileData

  /** Writing past the first region of a file follows whatever pointer that region still has, and
      replaces the bytes of the file that the region pointed at belongs to. */
  lemma StalePointerFollowed(st: Store, q: nat, data: seq<byte>, m: nat)
    requires GridOk(st, REGION) && InGrid(|st.bits|, REGION, q)
    requires var p := Next(st, REGION, q); !IsEnd(p) && p != q
    requires Capacity(REGION) < |data| <= 2 * Capacity(REGION) && m <= |data| - Capacity(REGION)
    ensures var p, w := Next(st, REGION, q), WriteFrom(st, REGION, q, data);
      && w.visited == [q, p] && w.size == |data| && Next(w.store, REGION, q) == p
      && ReadFrom(w.store, REGION, p, m) == data[Capacity(REGION)..][..m]
  {
    var cap, p := Capacity(REGION), Next(st, REGION, q);
    PutKeepsGrid(st, REGION, q, data[..cap], p);
    var st1 := Put(st, REGION, q, data[..cap], p);
    var st2 := Put(st1, REGION, p, data[cap..], 0);
    PutKeepsGrid(st1, REGION, p, data[cap..], 0);
    assert WriteFrom(st1, REGION, p, data[cap..]) == Written(st2, |data| - cap, [p]);
    assert WriteFrom(st, REGION, q, data) == Written(st2, |data|, [q] + [p]);
    PutNext(st, REGION, q, data[..cap], p, q);
    PutNext(st1, REGION, p, data[cap..], 0, q);
    PutIs(st1, REGION, p, data[cap..], 0);
    ReadRegion(st2, REGION, p, data[cap..], 0, m);
  }

  ghost predicate TakenBelow(bits: seq<bool>, r: nat) {
    r <= |bits| && forall i :: 0 <= i < r ==> bits[i]
  }

  lemma NextFit(bits: seq<bool>, r: nat)
    requires r + REGION <= |bits| && TakenBelow(bits, r) && Free(bits, r, REGION)
    ensures FirstFit(bits, REGION) == Some(r)
    ensures TakenBelow(Mark(bits, r, REGION, true), r + REGION)
  {
    forall k: nat | k < r
      ensures !(k + REGION <= |bits| && Free(bits, k, REGION))
    {
      assert bits[k];
    }
  }

  lemma FreedRegion(bits: seq<bool>, bits': seq<bool>, ch: seq<nat>, q: nat)
    requires Cleared(bits, bits', REGION, ch) && q in ch && OnGrid(q, REGION) && q + REGION <= |bits|
    ensures Free(bits', q, REGION)
  {
    forall i | q <= i < q + REGION
      ensures !bits'[i]
    {
      GroupOf(i, REGION, q);
    }
  }

  lemma KeptBelow(bits: seq<bool>, bits': seq<bool>, ch: seq<nat>, r: nat)
    requires Cleared(bits, bits', REGION, ch) && TakenBelow(bits, r)
    requires forall q :: q in ch ==> q >= r && OnGrid(q, REGION)
    ensures TakenBelow(bits', r)
  {
    forall i | 0 <= i < r
      ensures bits'[i]
    {
      assert GroupStart(i, REGION) <= i;
    }
  }

  /** A removal leaves the sectors, pointers included, as they are. */
  lemma PointersKept(st: Store, e: Entries.Entry, ch: seq<nat>)
    requires ChainOk(st, e, ch) && e.regionSize == REGION
    ensures FileData.FreeEntry(st, e).sectors == st.sectors
    ensures |FileData.FreeEntry(st, e).bits| == |st.bits|
  {
  }

  lemma FreedPair(st: Store, e: Entries.Entry, r: nat)
    requires ChainOk(st, e, [r, r + REGION]) && e.regionSize == REGION && TakenBelow(st.bits, r)
    ensures var st1 := FileData.FreeEntry(st, e);
      && GridOk(st1, REGION) && InGrid(|st1.bits|, REGION, r) && InGrid(|st1.bits|, REGION, r + REGION)
      && TakenBelow(st1.bits, r) && Free(st1.bits, r, REGION) && Free(st1.bits, r + REGION, REGION)
      && Next(st1, REGION, r) == r + REGION && !IsEnd(r + REGION)
  {
    hide Cleared, FileData.FreeEntry, FreeEnds, TakenBelow, OnGrid, Uniform, Distinct, Taken;
    var ch := [r, r + REGION];
    FreeEndsAfterFree(st, e, ch);
    PointersKept(st, e, ch);
    LinkedInGrid(st, REGION, ch);
    assert ch[0] in ch && ch[1] in ch;
    var st1 := FileData.FreeEntry(st, e);
    KeptBelow(st.bits, st1.bits, ch, r);
    FreedRegion(st.bits, st1.bits, ch, r);
    FreedRegion(st.bits, st1.bits, ch, r + REGION);
    assert Next(st, REGION, ch[0]) == ch[1];
  }

  /** The bitmap's and the pointers' side of it: a file of two neighbouring regions is removed; the next two
      regions taken are those two; then a write that starts at the first of them and needs a second one goes
      on in the other. */
  lemma FreedThenShared(st: Store, e: Entries.Entry, r: nat, data: seq<byte>, m: nat)
    requires ChainOk(st, e, [r, r + REGION]) && e.regionSize == REGION && TakenBelow(st.bits, r)
    requires Capacity(REGION) < |data| <= 2 * Capacity(REGION) && m <= |data| - Capacity(REGION)
    ensures var st1 := FileData.FreeEntry(st, e);
      var st2 := st1.(bits := Mark(st1.bits, r, REGION, true));
      var st3 := st2.(bits := Mark(st2.bits, r + REGION, REGION, true));
      && FirstFit(st1.bits, REGION) == Some(r) && FirstFit(st2.bits, REGION) == Some(r + REGION)
      && GridOk(st3, REGION) && InGrid(|st3.bits|, REGION, r) && InGrid(|st3.bits|, REGION, r + REGION)
      && ReadFrom(WriteFrom(st3, REGION, r, data).store, REGION, r + REGION, m) == data[Capacity(REGION)..][..m]
  {
    FreedPair(st, e, r);
    hide ChainOk, Capacity, WriteFrom, ReadFrom;
    var st1 := FileData.FreeEntry(st, e);
    NextFit(st1.bits, r);
    MarkKeepsGrid(st1, REGION, r, true);
    var st2 := st1.(bits := Mark(st1.bits, r, REGION, true));
    NextFit(st2.bits, r + REGION);
    MarkKeepsGrid(st2, REGION, r + REGION, true);
    StalePointerFollowed(st2.(bits := Mark(st2.bits, r + REGION, REGION, true)), r, data, m);
  }
}
