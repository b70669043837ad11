/** Which file has which region, whatever the pointers of free regions say: what removals keep, and the
    creation that can first put a region into two files. */
module Ownership {
  import opened Bytes
  import opened Regions
  import opened Chains
  import opened Entries
  import opened Disk
  import Names
  import PathNames
  import Table
  import opened FileSystem
  import opened Separation
  import FileData
  import Transfers

  /** `ch` is the chain of file `e`: linked, acyclic, taken, and short enough to be freed as a whole. */
  ghost predicate OwnChain(st: Store, e: Entry, ch: seq<nat>) {
    && GridOk(st, REGION) && Linked(st, REGION, ch) && Distinct(ch) && Taken(st.bits, ch)
    && ch[0] == e.frame && |ch| <= FreeCount(e.size, REGION)
  }

  ghost predicate DisjointChains(st: Store, t: seq<Entry>, cs: seq<seq<nat>>) {
    && |cs| == |t|
    && (forall k :: 0 <= k < |t| && IsFile(t[k]) ==> OwnChain(st, t[k], cs[k]))
    && (forall j, k :: 0 <= j < k < |t| && IsFile(t[j]) && IsFile(t[k]) ==> Apart(cs[j], cs[k]))
  }

  /** Live files have disjoint chains; nothing is said of free regions. */
  ghost predicate Owned(m: Image, cs: seq<seq<nat>>) {
    ImageOk(m) && DisjointChains(m.store, m.table, cs)
  }

  /** The separation invariant is that and the clause about free regions. */
  lemma SeparatedMeans(m: Image, cs: seq<seq<nat>>)
    ensures SepOk(m, cs) <==> Owned(m, cs) && FreeEnds(m.store, REGION)
  {
    if SepOk(m, cs) || (Owned(m, cs) && FreeEnds(m.store, REGION)) {
      forall k | 0 <= k < |m.table| && k < |cs|
        ensures ChainOk(m.store, m.table[k], cs[k]) <==> OwnChain(m.store, m.table[k], cs[k])
      {
      }
    }
  }

  lemma OwnApart(m: Image, cs: seq<seq<nat>>, j: nat, k: nat)
    requires Owned(m, cs) && j < TABLE_ENTRIES && k < TABLE_ENTRIES && j != k && IsFile(m.table[j]) && IsFile(m.table[k])
    ensures Apart(cs[j], cs[k])
  {
    if k < j { ApartSym(cs[k], cs[j]); }
  }

  // ---------------------------------------------------------------- removals

  /** Freeing one file's regions leaves a file with a disjoint chain its chain and its bytes. */
  lemma FreeKeepsChain(st: Store, e: Entry, ch: seq<nat>, other: Entry, och: seq<nat>, n: nat)
    requires OwnChain(st, e, ch) && e.regionSize == REGION && OwnChain(st, other, och) && Apart(och, ch)
    ensures var st' := FileData.FreeEntry(st, e);
      OwnChain(st', other, och) && ReadFrom(st', REGION, other.frame, n) == ReadFrom(st, REGION, other.frame, n)
  {
    var st' := FileData.FreeEntry(st, e);
    FreeKeepsGrid(st, REGION, e.frame, FreeCount(e.size, REGION), st.bits);
    FreeExact(st, REGION, ch, FreeCount(e.size, REGION), st.bits);
    LinkedInGrid(st, REGION, och);
    ClearedTaken(st.bits, st'.bits, REGION, ch, och);
    SameChain(st, st', REGION, och, n);
  }

  /** Removing a file of any number of regions leaves every other file its entry, its chain and its bytes. */
  lemma RmKeepsOthers(m: Image, cs: seq<seq<nat>>, k: nat, j: nat, n: nat)
    requires Owned(m, cs) && k < TABLE_ENTRIES && j < TABLE_ENTRIES && j != k
    requires IsFile(m.table[k]) && IsFile(m.table[j])
    ensures var m' := RmFileById(m, m.table[k].id).0;
      && ImageOk(m') && m'.table[j] == m.table[j] && OwnChain(m'.store, m.table[j], cs[j])
      && Contents(m', m.table[j], n) == Contents(m, m.table[j], n)
  {
    Names.SlotIs(m.table, k);
    RmFileKeepsOk(m, m.table[k].id);
    OwnApart(m, cs, j, k);
    FreeKeepsChain(m.store, m.table[k], cs[k], m.table[j], cs[j], Min(m.table[j].size, n));
  }

  /** So no removal makes files share anything. */
  lemma RmKeepsOwned(m: Image, cs: seq<seq<nat>>, k: nat)
    requires Owned(m, cs) && k < TABLE_ENTRIES && IsFile(m.table[k])
    ensures Owned(RmFileById(m, m.table[k].id).0, cs[k := []])
  {
    var m' := RmFileById(m, m.table[k].id).0;
    Names.SlotIs(m.table, k);
    RmFileKeepsOk(m, m.table[k].id);
    forall j | 0 <= j < TABLE_ENTRIES && j != k && IsFile(m.table[j])
      ensures OwnChain(m'.store, m.table[j], cs[j])
    {
      RmKeepsOthers(m, cs, k, j, 0);
    }
  }

  // ---------------------------------------------------------------- creations

  /** A region taken for a new file whose pointer ends the chain is that file's whole chain. */
  lemma TakeKeepsChain(st: Store, f: nat, other: Entry, och: seq<nat>)
    requires OwnChain(st, other, och) && FirstFit(st.bits, REGION) == Some(f)
    ensures OwnChain(st.(bits := Mark(st.bits, f, REGION, true)), other, och) && Apart([f], och)
  {
    FirstFitOnGrid(st.bits, REGION);
    MarkKeepsGrid(st, REGION, f, true);
    SameChain(st, st.(bits := Mark(st.bits, f, REGION, true)), REGION, och, 0);
  }

  /** Replacing the file in slot `k`, its chain, and the store. */
  lemma OwnedUpdate(m: Image, cs: seq<seq<nat>>, m': Image, k: nat, ch: seq<nat>)
    requires Owned(m, cs) && ImageOk(m') && k < TABLE_ENTRIES
    requires forall j :: 0 <= j < TABLE_ENTRIES && j != k ==> m'.table[j] == m.table[j]
    requires forall j :: 0 <= j < TABLE_ENTRIES && j != k && IsFile(m.table[j]) ==>
      OwnChain(m'.store, m.table[j], cs[j]) && Apart(ch, cs[j])
    requires IsFile(m'.table[k]) ==> OwnChain(m'.store, m'.table[k], ch)
    ensures Owned(m', cs[k := ch])
  {
    assert |m'.table| == |cs| == TABLE_ENTRIES;
    hide ImageOk, OwnChain;
    var t', cs' := m'.table, cs[k := ch];
    forall i, j | 0 <= i < j < TABLE_ENTRIES && IsFile(t'[i]) && IsFile(t'[j])
      ensures Apart(cs'[i], cs'[j])
    {
      if j == k { ApartSym(ch, cs[i]); }
    }
  }

  lemma NewChain(st: Store, f: nat, e: Entry)
    requires GridOk(st, REGION) && FirstFit(st.bits, REGION) == Some(f) && IsEnd(Next(st, REGION, f)) && e.frame == f
    ensures OwnChain(st.(bits := Mark(st.bits, f, REGION, true)), e, [f])
  {
    FirstFitOnGrid(st.bits, REGION);
    MarkKeepsGrid(st, REGION, f, true);
    assert Next(st.(bits := Mark(st.bits, f, REGION, true)), REGION, f) == Next(st, REGION, f);
  }

  lemma MkKeepsOwned(m: Image, cs: seq<seq<nat>>, p: seq<byte>, cur: u64, k: nat)
    requires Owned(m, cs) && |PathNames.LastName(p)| <= 23 && Table.SlotWith(m.table, 0) == Some(k) && MkFile(m, p, cur).1 == 0
    requires IsEnd(Next(m.store, REGION, FirstFit(m.store.bits, REGION).value))
    ensures Owned(MkFile(m, p, cur).0, cs[k := [FirstFit(m.store.bits, REGION).value]])
  {
    var m', f := MkFile(m, p, cur).0, FirstFit(m.store.bits, REGION).value;
    Transfers.MkFileAdds(m, p, cur, k);
    NewChain(m.store, f, m'.table[k]);
    hide MkFile, OwnChain, FirstFit, ImageOk;
    forall j | 0 <= j < TABLE_ENTRIES && j != k && IsFile(m.table[j])
      ensures OwnChain(m'.store, m.table[j], cs[j]) && Apart([f], cs[j])
    {
      TakeKeepsChain(m.store, f, m.table[j], cs[j]);
    }
    OwnedUpdate(m, cs, m', k, [f]);
  }

  /** A creation with a free slot keeps live files' chains disjoint exactly when the region it takes has no old
      pointer: otherwise the new, empty file already continues in a region that is not its own. */
  lemma MkOwnedIff(m: Image, cs: seq<seq<nat>>, p: seq<byte>, cur: u64)
    requires Owned(m, cs) && |PathNames.LastName(p)| <= 23 && Table.SlotWith(m.table, 0).Some? && MkFile(m, p, cur).1 == 0
    ensures FirstFit(m.store.bits, REGION).Some? && InGrid(|m.store.bits|, REGION, FirstFit(m.store.bits, REGION).value)
    ensures (exists cs' :: Owned(MkFile(m, p, cur).0, cs'))
      <==> IsEnd(Next(m.store, REGION, FirstFit(m.store.bits, REGION).value))
  {
    var k, m' := Table.SlotWith(m.table, 0).value, MkFile(m, p, cur).0;
    var f := FirstFit(m.store.bits, REGION).value;
    FirstFitOnGrid(m.store.bits, REGION);
    if IsEnd(Next(m.store, REGION, f)) {
      MkKeepsOwned(m, cs, p, cur, k);
    } else {
      Transfers.MkFileAdds(m, p, cur, k);
      assert Next(m'.store, REGION, f) == Next(m.store, REGION, f);
      forall cs'
        ensures !Owned(m', cs')
      {
        if |cs'| == TABLE_ENTRIES {
          NewChainTooLong(m'.store, m'.table[k], cs'[k]);
        }
      }
    }
  }

  /** An empty file's chain is one region. */
  lemma NewChainTooLong(st: Store, e: Entry, ch: seq<nat>)
    requires GridOk(st, REGION) && InGrid(|st.bits|, REGION, e.frame) && !IsEnd(Next(st, REGION, e.frame)) && e.size == 0
    ensures !OwnChain(st, e, ch)
  {
  }
}
