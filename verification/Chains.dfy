/** Properties of region chains: what a write, a read and a removal mean for whole files. */
module Chains {
  import opened Bytes
  import opened Regions

  /** `ch` is the chain of regions that starts at `ch[0]`. */
  ghost predicate Linked(st: Store, n: nat, ch: seq<nat>)
    requires GridOk(st, n)
  {
    ch != [] && InGrid(|st.bits|, n, ch[0])
    && if |ch| == 1 then IsEnd(Next(st, n, ch[0]))
       else !IsEnd(Next(st, n, ch[0])) && Next(st, n, ch[0]) == ch[1] && Linked(st, n, ch[1..])
  }

  ghost predicate Distinct(ch: seq<nat>) {
    forall i, j :: 0 <= i < j < |ch| ==> ch[i] != ch[j]
  }

  ghost predicate Taken(bits: seq<bool>, ch: seq<nat>) {
    forall r :: r in ch ==> r < |bits| && bits[r]
  }

  /** Every free region's pointer ends the chain, so a region newly taken starts with no successor. */
  ghost predicate FreeEnds(st: Store, n: nat)
    requires GridOk(st, n)
  {
    forall r: nat {:trigger Next(st, n, r)} :: InGrid(|st.bits|, n, r) && !st.bits[r] ==> IsEnd(Next(st, n, r))
  }

  /** `ch` is an acyclic chain of taken regions, in a store whose free regions end their chains. */
  ghost predicate Sound(st: Store, n: nat, ch: seq<nat>) {
    GridOk(st, n) && FreeEnds(st, n) && Linked(st, n, ch) && Distinct(ch) && Taken(st.bits, ch)
  }

  /** A pointer ends its chain when it is 0 or has all its bits set. */
  lemma ChainEnds(st: Store, n: nat, r: nat)
    requires GridOk(st, n) && InGrid(|st.bits|, n, r)
    ensures Linked(st, n, [r]) <==> Next(st, n, r) == 0 || Next(st, n, r) == 0xFFFF_FFFF_FFFF_FFFF
  {
  }

  lemma {:induction false} LinkedFrame(st: Store, st': Store, n: nat, ch: seq<nat>)
    requires GridOk(st, n) && GridOk(st', n) && |st.bits| == |st'.bits| && Linked(st, n, ch)
    requires forall q :: q in ch && InGrid(|st.bits|, n, q) ==> Next(st', n, q) == Next(st, n, q)
    ensures Linked(st', n, ch)
  {
    if |ch| > 1 {
      LinkedFrame(st, st', n, ch[1..]);
    }
  }

  lemma {:induction false} LinkedInGrid(st: Store, n: nat, ch: seq<nat>)
    requires GridOk(st, n) && Linked(st, n, ch)
    ensures forall q :: q in ch ==> InGrid(|st.bits|, n, q)
    ensures forall k :: 0 < k < |ch| ==> ch[k] != 0
  {
    if |ch| > 1 {
      LinkedInGrid(st, n, ch[1..]);
      assert forall k :: 0 < k < |ch| ==> ch[k] == ch[1..][k - 1];
    }
  }

  /** The chain still to be followed once the first region of `ch` has been written. */
  function Rest(ch: seq<nat>, next: nat): (rest: seq<nat>)
    requires ch != []
    ensures rest != []
  {
    if |ch| > 1 then ch[1..] else [next]
  }

  /** What a region's write and its choice of a next region do to pointers and bits. */
  lemma GrowPut(st: Store, n: nat, r: nat, chunk: seq<byte>, st1: Store, next: nat)
    requires GridOk(st, n) && InGrid(|st.bits|, n, r) && Grow(st, n, r) == Some((st1, next))
    ensures next < U64 && InGrid(|st.bits|, n, next) && GridOk(Put(st1, n, r, chunk, next), n)
    ensures forall q: nat {:trigger Next(Put(st1, n, r, chunk, next), n, q)} :: InGrid(|st.bits|, n, q) ==>
      Next(Put(st1, n, r, chunk, next), n, q) == if q == r then next else Next(st, n, q)
    ensures |st1.bits| == |st.bits| && forall i :: 0 <= i < |st.bits| && st.bits[i] ==> st1.bits[i]
    ensures if !IsEnd(Next(st, n, r)) then st1 == st && next == Next(st, n, r) else !st.bits[next] && st1.bits[next]
  {
    PutKeepsGrid(st1, n, r, chunk, next);
    forall q: nat | InGrid(|st.bits|, n, q)
      ensures Next(Put(st1, n, r, chunk, next), n, q) == if q == r then next else Next(st, n, q)
    {
      PutNext(st1, n, r, chunk, next, q);
      assert Next(st1, n, q) == Next(st, n, q);
    }
  }

  lemma SoundStep(st: Store, n: nat, ch: seq<nat>, chunk: seq<byte>, st1: Store, next: nat)
    requires Sound(st, n, ch)
    requires Grow(st, n, ch[0]) == Some((st1, next))
    ensures next < U64 && Rest(ch, next)[0] == next && ch[0] !in Rest(ch, next)
    ensures GridOk(Put(st1, n, ch[0], chunk, next), n)
    ensures Sound(Put(st1, n, ch[0], chunk, next), n, Rest(ch, next))
    ensures st1.bits[ch[0]]
    ensures |ch| == 1 ==> !st.bits[next]
  {
    var r, ch1 := ch[0], Rest(ch, next);
    var st2 := Put(st1, n, r, chunk, next);
    GrowPut(st, n, r, chunk, st1, next);
    LinkedInGrid(st, n, ch);
    assert r in ch && st.bits[r];
    RestTaken(st.bits, st1.bits, ch, next);
    RestEnds(st, st2, n, r);
    if |ch| > 1 {
      hide Put, Grow, GridOk, FreeEnds, Taken;
      LinkedFrame(st, st2, n, ch1);
    }
  }

  /** The rest of a chain is distinct and taken. */
  lemma RestTaken(bits: seq<bool>, bits': seq<bool>, ch: seq<nat>, next: nat)
    requires ch != [] && Distinct(ch) && Taken(bits, ch) && |bits'| == |bits| && next < |bits|
    requires forall i :: 0 <= i < |bits| && bits[i] ==> bits'[i]
    requires if |ch| > 1 then next == ch[1] else !bits[next] && bits'[next]
    ensures ch[0] !in Rest(ch, next) && Distinct(Rest(ch, next)) && Taken(bits', Rest(ch, next))
  {
    var ch1 := Rest(ch, next);
    assert ch[0] in ch;
    forall q | q in ch1
      ensures q < |bits'| && bits'[q]
    {
      assert |ch| > 1 ==> q in ch;
    }
  }

  /** Free regions still end their chains when only a taken one's pointer has changed. */
  lemma RestEnds(st: Store, st2: Store, n: nat, r: nat)
    requires GridOk(st, n) && FreeEnds(st, n) && GridOk(st2, n) && |st2.bits| == |st.bits|
    requires r < |st.bits| && st.bits[r] && forall i :: 0 <= i < |st.bits| && st.bits[i] ==> st2.bits[i]
    requires forall q: nat {:trigger Next(st2, n, q)} ::
      InGrid(|st.bits|, n, q) && q != r ==> Next(st2, n, q) == Next(st, n, q)
    ensures FreeEnds(st2, n)
  {
    forall q: nat | InGrid(|st2.bits|, n, q) && !st2.bits[q]
      ensures IsEnd(Next(st2, n, q))
    {
      assert !st.bits[q];
    }
  }

  // ---------------------------------------------------------------- what a write touches

  /** Only sectors of the regions `vis` differ, and only bits of those regions were set. */
  ghost predicate Touches(st: Store, st': Store, n: nat, vis: seq<nat>)
    requires n > 0
  {
    && |st'.sectors| == |st.sectors| && |st'.bits| == |st.bits|
    && (forall i :: 0 <= i < |st.sectors| && GroupStart(i, n) !in vis ==> st'.sectors[i] == st.sectors[i])
    && (forall i :: 0 <= i < |st.bits| && st.bits[i] ==> st'.bits[i])
    && (forall i :: 0 <= i < |st.bits| && st'.bits[i] && !st.bits[i] ==> GroupStart(i, n) in vis)
  }

  lemma TouchesThen(a: Store, b: Store, c: Store, n: nat, v: seq<nat>, v': seq<nat>, vis: seq<nat>)
    requires n > 0 && Touches(a, b, n, v) && Touches(b, c, n, v')
    requires forall q :: q in v || q in v' ==> q in vis
    ensures Touches(a, c, n, vis)
  {
  }

  lemma PutTouches(st: Store, n: nat, r: nat, chunk: seq<byte>, next: nat)
    requires n > 0 && OnGrid(r, n)
    ensures Touches(st, Put(st, n, r, chunk, next), n, [r])
  {
    forall i | 0 <= i < |st.sectors|
      ensures GroupStart(i, n) == r <==> r <= i < r + n
    {
      GroupOf(i, n, r);
    }
  }

  lemma MarkTouches(st: Store, n: nat, f: nat)
    requires n > 0 && OnGrid(f, n)
    ensures Touches(st, st.(bits := Mark(st.bits, f, n, true)), n, [f])
  {
    forall i | 0 <= i < |st.bits|
      ensures GroupStart(i, n) == f <==> f <= i < f + n
    {
      GroupOf(i, n, f);
    }
  }

  lemma GrowTouches(st: Store, n: nat, r: nat)
    requires GridOk(st, n) && InGrid(|st.bits|, n, r) && Grow(st, n, r).Some?
    ensures Touches(st, Grow(st, n, r).value.0, n, [Grow(st, n, r).value.1])
  {
    MarkTouches(st, n, Grow(st, n, r).value.1);
  }

  /** From any state a run can reach: a write changes only the regions it visits, and only sets bits. */
  lemma {:induction false} WriteTouches(st: Store, n: nat, r: nat, data: seq<byte>)
    requires GridOk(st, n) && InGrid(|st.bits|, n, r)
    ensures var w := WriteFrom(st, n, r, data);
      && w.visited != [] && w.visited[0] == r
      && (forall q :: q in w.visited ==> InGrid(|st.bits|, n, q))
      && Touches(st, w.store, n, w.visited)
    decreases |data|
  {
    var cap, w := Capacity(n), WriteFrom(st, n, r, data);
    if |data| > cap && Grow(st, n, r).Some? {
      var (st1, next) := Grow(st, n, r).value;
      PutKeepsGrid(st1, n, r, data[..cap], next);
      var st2 := Put(st1, n, r, data[..cap], next);
      WriteTouches(st2, n, next, data[cap..]);
      GrowTouches(st, n, r);
      PutTouches(st1, n, r, data[..cap], next);
      TouchesThen(st, st1, st2, n, [next], [r], [next, r]);
      TouchesThen(st, st2, w.store, n, [next, r], WriteFrom(st2, n, next, data[cap..]).visited, w.visited);
    } else {
      PutTouches(st, n, r, if |data| <= cap then data else data[..cap], 0);
    }
  }

  /** The old chain is followed, then free regions are taken, each once, and all are marked. */
  ghost predicate Visits(bits: seq<bool>, ch: seq<nat>, bits': seq<bool>, vis: seq<nat>) {
    && Distinct(vis)
    && (if |vis| <= |ch| then vis == ch[..|vis|] else vis[..|ch|] == ch)
    && (forall q :: q in vis ==> q in ch || (q < |bits| && !bits[q]))
    && Taken(bits', vis)
  }

  lemma VisitsExtend(bits: seq<bool>, ch: seq<nat>, bits1: seq<bool>, next: nat, bits2: seq<bool>, vis: seq<nat>)
    requires ch != [] && vis != [] && |bits| == |bits1| == |bits2| && ch[0] < |bits| && bits1[ch[0]]
    requires forall i :: 0 <= i < |bits| ==> (bits[i] ==> bits1[i]) && (bits1[i] ==> bits2[i])
    requires Rest(ch, next)[0] == next && ch[0] !in Rest(ch, next)
    requires |ch| == 1 ==> next < |bits| && !bits[next]
    requires Visits(bits1, Rest(ch, next), bits2, vis)
    ensures Visits(bits, ch, bits2, [ch[0]] + vis)
  {
    var r, ch1, vis' := ch[0], Rest(ch, next), [ch[0]] + vis;
    assert r !in vis;
    assert forall k :: 0 < k < |vis'| ==> vis'[k] == vis[k - 1];
    if |ch| > 1 {
      assert ch == [r] + ch1;
      if |vis| <= |ch1| {
        assert vis' == ch[..|vis'|];
      } else {
        assert vis'[..|ch|] == [r] + vis[..|ch1|];
      }
    } else {
      assert vis[0] == next;
      assert vis'[..1] == ch;
    }
  }

  lemma {:induction false} WriteVisits(st: Store, n: nat, ch: seq<nat>, data: seq<byte>)
    requires Sound(st, n, ch)
    ensures var w := WriteFrom(st, n, ch[0], data);
      Visits(st.bits, ch, w.store.bits, w.visited) && FreeEnds(w.store, n)
    decreases |data|
  {
    hide FreeEnds, Put, Uniform;
    var cap, r, w := Capacity(n), ch[0], WriteFrom(st, n, ch[0], data);
    LinkedInGrid(st, n, ch);
    assert st.bits[r] by { assert r in ch; }
    if |data| > cap && Grow(st, n, r).Some? {
      var (st1, next) := Grow(st, n, r).value;
      SoundStep(st, n, ch, data[..cap], st1, next);
      var st2 := Put(st1, n, r, data[..cap], next);
      WriteVisits(st2, n, Rest(ch, next), data[cap..]);
      WriteTouches(st2, n, next, data[cap..]);
      var w2 := WriteFrom(st2, n, next, data[cap..]);
      VisitsExtend(st.bits, ch, st2.bits, next, w2.store.bits, w2.visited);
    } else {
      LastEnds(st, n, r, if |data| <= cap then data else data[..cap]);
    }
  }

  lemma LastEnds(st: Store, n: nat, r: nat, chunk: seq<byte>)
    requires GridOk(st, n) && FreeEnds(st, n) && InGrid(|st.bits|, n, r) && |chunk| <= Capacity(n)
    ensures GridOk(Put(st, n, r, chunk, 0), n) && FreeEnds(Put(st, n, r, chunk, 0), n)
  {
    PutKeepsGrid(st, n, r, chunk, 0);
    var st' := Put(st, n, r, chunk, 0);
    forall q: nat | InGrid(|st.bits|, n, q) && !st'.bits[q]
      ensures IsEnd(Next(st', n, q))
    {
      PutNext(st, n, r, chunk, 0, q);
    }
  }

  // ---------------------------------------------------------------- what a write leaves on the disk

  /** Region `r` holds `chunk`, zero padded, and points at `next`. */
  ghost predicate RegionIs(st: Store, n: nat, r: nat, chunk: seq<byte>, next: nat)
    requires n > 0 && r + n <= |st.sectors|
  {
    forall i :: r <= i < r + n ==> st.sectors[i] == RegionSector(chunk, n, i - r, next)
  }

  /** The regions `vis` hold `data` in order, each pointing at the one after it and the last at 0. */
  ghost predicate Holds(st: Store, n: nat, vis: seq<nat>, data: seq<byte>)
    requires GridOk(st, n)
  {
    vis != [] && InGrid(|st.bits|, n, vis[0])
    && (var cap := Capacity(n);
        var chunk := if |data| <= cap then data else data[..cap];
        && RegionIs(st, n, vis[0], chunk, if |vis| == 1 then 0 else vis[1])
        && (|vis| > 1 ==> |data| > cap && Holds(st, n, vis[1..], data[cap..])))
  }

  lemma PutIs(st: Store, n: nat, r: nat, chunk: seq<byte>, next: nat)
    requires n > 0 && r + n <= |st.sectors|
    ensures RegionIs(Put(st, n, r, chunk, next), n, r, chunk, next)
  {
  }

  /** What a region holds survives a write that does not visit it. */
  lemma RegionKept(st: Store, n: nat, r: nat, data: seq<byte>, q: nat, chunk: seq<byte>, next: nat)
    requires GridOk(st, n) && InGrid(|st.bits|, n, r) && InGrid(|st.bits|, n, q)
    requires q !in WriteFrom(st, n, r, data).visited
    requires RegionIs(st, n, q, chunk, next)
    ensures RegionIs(WriteFrom(st, n, r, data).store, n, q, chunk, next)
  {
    var st' := WriteFrom(st, n, r, data).store;
    WriteTouches(st, n, r, data);
    forall i | q <= i < q + n
      ensures st'.sectors[i] == st.sectors[i]
    {
      GroupOf(i, n, q);
    }
  }

  lemma HoldsExtend(st: Store, n: nat, r: nat, vis: seq<nat>, data: seq<byte>)
    requires GridOk(st, n) && InGrid(|st.bits|, n, r) && |data| > Capacity(n)
    requires Holds(st, n, vis, data[Capacity(n)..])
    requires RegionIs(st, n, r, data[..Capacity(n)], vis[0])
    ensures Holds(st, n, [r] + vis, data)
  {
    assert ([r] + vis)[1..] == vis;
  }

  lemma {:induction false} WriteHolds(st: Store, n: nat, ch: seq<nat>, data: seq<byte>)
    requires Sound(st, n, ch)
    ensures var w := WriteFrom(st, n, ch[0], data);
      Holds(w.store, n, w.visited, data)
    decreases |data|
  {
    var cap, r := Capacity(n), ch[0];
    LinkedInGrid(st, n, ch);
    if |data| > cap && Grow(st, n, r).Some? {
      var (st1, next) := Grow(st, n, r).value;
      SoundStep(st, n, ch, data[..cap], st1, next);
      var st2, ch1 := Put(st1, n, r, data[..cap], next), Rest(ch, next);
      WriteHolds(st2, n, ch1, data[cap..]);
      WriteVisits(st2, n, ch1, data[cap..]);
      WriteTouches(st2, n, next, data[cap..]);
      PutIs(st1, n, r, data[..cap], next);
      RegionKept(st2, n, next, data[cap..], r, data[..cap], next);
      var w2 := WriteFrom(st2, n, next, data[cap..]);
      HoldsExtend(w2.store, n, r, w2.visited, data);
    } else {
      PutIs(st, n, r, if |data| <= cap then data else data[..cap], 0);
    }
  }

  /** A write records no more than its regions hold, and needs all but the last of them. */
  lemma {:induction false} WriteSize(st: Store, n: nat, r: nat, data: seq<byte>)
    requires GridOk(st, n) && InGrid(|st.bits|, n, r)
    ensures var w := WriteFrom(st, n, r, data);
      && w.visited != []
      && w.size <= Room(n, |w.visited|)
      && (|w.visited| > 1 ==> Room(n, |w.visited| - 1) < w.size)
      && w.size <= |data|
    decreases |data|
  {
    hide Put, Uniform;
    var cap := Capacity(n);
    assert Room(n, 1) == cap + Room(n, 0);
    if |data| > cap && Grow(st, n, r).Some? {
      var (st1, next) := Grow(st, n, r).value;
      PutKeepsGrid(st1, n, r, data[..cap], next);
      var st2 := Put(st1, n, r, data[..cap], next);
      WriteSize(st2, n, next, data[cap..]);
      var k := |WriteFrom(st2, n, next, data[cap..]).visited|;
      assert WriteFrom(st, n, r, data).visited[1..] == WriteFrom(st2, n, next, data[cap..]).visited;
      assert Room(n, k + 1) == cap + Room(n, k) && Room(n, k) == cap + Room(n, k - 1);
    }
  }

  /** A write that records less than the data has filled its regions and found no free one. */
  lemma {:induction false} WriteRunsOut(st: Store, n: nat, r: nat, data: seq<byte>)
    requires GridOk(st, n) && InGrid(|st.bits|, n, r) && WriteFrom(st, n, r, data).size < |data|
    ensures var w := WriteFrom(st, n, r, data);
      w.size == Room(n, |w.visited|) && FirstFit(w.store.bits, n) == None
    decreases |data|
  {
    var cap := Capacity(n);
    assert Room(n, 1) == cap + Room(n, 0);
    if |data| > cap && Grow(st, n, r).Some? {
      var (st1, next) := Grow(st, n, r).value;
      PutKeepsGrid(st1, n, r, data[..cap], next);
      var st2 := Put(st1, n, r, data[..cap], next);
      WriteRunsOut(st2, n, next, data[cap..]);
      var k := |WriteFrom(st2, n, next, data[cap..]).visited|;
      assert WriteFrom(st, n, r, data).visited[1..] == WriteFrom(st2, n, next, data[cap..]).visited;
      assert Room(n, k + 1) == cap + Room(n, k);
    }
  }

  /** How many regions a reader sees of a chain that was written as `vis`: a pointer to region 0
      looks like the end. */
  function Cut(vis: seq<nat>): (c: nat)
    ensures c <= |vis|
  {
    if |vis| <= 1 then |vis| else if vis[1] == 0 then 1 else 1 + Cut(vis[1..])
  }

  lemma {:induction false} CutIs(vis: seq<nat>, c: nat)
    requires 0 < c <= |vis| && (c < |vis| ==> vis[c] == 0)
    requires forall k :: 0 < k < c ==> vis[k] != 0
    ensures Cut(vis) == c
  {
    if c > 1 {
      CutIs(vis[1..], c - 1);
    }
  }

  /** Reading from a region that holds `chunk` and points at `next`. */
  lemma ReadRegion(st: Store, n: nat, r: nat, chunk: seq<byte>, next: nat, m: nat)
    requires GridOk(st, n) && InGrid(|st.bits|, n, r) && next < U64 && |chunk| <= Capacity(n)
    requires RegionIs(st, n, r, chunk, next)
    ensures m <= |chunk| ==> ReadFrom(st, n, r, m) == chunk[..m]
    ensures m > |chunk| == Capacity(n) && IsEnd(next) ==> ReadFrom(st, n, r, m) == chunk
    ensures m > |chunk| == Capacity(n) && !IsEnd(next) ==> InGrid(|st.bits|, n, next)
    ensures m > |chunk| == Capacity(n) && !IsEnd(next)
      ==> ReadFrom(st, n, r, m) == chunk + ReadFrom(st, n, next, m - Capacity(n))
  {
    RegionHolds(st, n, r, chunk, next);
    PointsAt(st, n, r, chunk, next);
    if m <= |chunk| {
      assert RegionBytes(st, n, r)[..m] == chunk[..m];
    } else if |chunk| == Capacity(n) {
      assert RegionBytes(st, n, r) == chunk;
    }
  }

  /** Regions written to hold `data` read back as `data`, up to the cut. */
  lemma {:induction false} ReadBack(st: Store, n: nat, vis: seq<nat>, data: seq<byte>, m: nat)
    requires GridOk(st, n) && Holds(st, n, vis, data) && m <= |data|
    ensures ReadFrom(st, n, vis[0], m) == data[..Min(m, Room(n, Cut(vis)))]
    decreases m
  {
    hide ReadFrom, RegionIs, Uniform, Next;
    var cap, c := Capacity(n), Cut(vis);
    var chunk := if |data| <= cap then data else data[..cap];
    ReadRegion(st, n, vis[0], chunk, if |vis| == 1 then 0 else vis[1], m);
    assert Room(n, c) == cap + Room(n, c - 1);
    if m <= cap {
      assert chunk[..m] == data[..m];
    } else if c > 1 {
      var next := vis[1];
      assert InGrid(|st.bits|, n, next) && !IsEnd(next);
      ReadBack(st, n, vis[1..], data[cap..], m - cap);
      SliceJoin(data, cap, Min(m - cap, Room(n, c - 1)));
      assert ReadFrom(st, n, vis[0], m) == chunk + ReadFrom(st, n, next, m - cap);
    } else {
      assert Room(n, c) == cap;
      assert ReadFrom(st, n, vis[0], m) == chunk;
    }
  }

  lemma PointsAt(st: Store, n: nat, r: nat, chunk: seq<byte>, next: nat)
    requires n > 0 && r + n <= |st.sectors| && next < U64
    requires RegionIs(st, n, r, chunk, next)
    ensures Next(st, n, r) == next
  {
    assert st.sectors[r + n - 1] == RegionSector(chunk, n, n - 1, next);
    PtrOfRegionSector(chunk, n, next);
  }

  lemma SliceJoin(s: seq<byte>, a: nat, b: nat)
    requires a + b <= |s|
    ensures s[..a] + s[a..][..b] == s[..a + b]
  {
  }

  lemma RegionHolds(st: Store, n: nat, r: nat, chunk: seq<byte>, next: nat)
    requires n > 0 && r + n <= |st.sectors| && |chunk| <= Capacity(n)
    requires RegionIs(st, n, r, chunk, next)
    ensures |RegionBytes(st, n, r)| >= |chunk| && RegionBytes(st, n, r)[..|chunk|] == chunk
  {
    forall i | 0 <= i < |chunk|
      ensures RegionBytes(st, n, r)[i] == chunk[i]
    {
      var j := i / 512;
      assert st.sectors[r + j] == RegionSector(chunk, n, j, next);
      assert RegionSector(chunk, n, j, next)[i % 512] == chunk[j * 512 + i % 512];
    }
  }

  // ---------------------------------------------------------------- round trip

  lemma {:induction false} RoomGrows(n: nat, a: nat, b: nat)
    requires n > 0 && a <= b
    ensures Room(n, a) <= Room(n, b)
  {
    if a < b {
      RoomGrows(n, a, b - 1);
    }
  }

  /** With region 0 free, region 0 is the first one a write takes. */
  lemma {:induction false} FirstTaken(st: Store, n: nat, ch: seq<nat>, data: seq<byte>)
    requires Sound(st, n, ch) && !st.bits[0]
    ensures var vis := WriteFrom(st, n, ch[0], data).visited; |vis| > |ch| ==> vis[|ch|] == 0
    decreases |data|
  {
    var cap, r := Capacity(n), ch[0];
    LinkedInGrid(st, n, ch);
    if |data| > cap && Grow(st, n, r).Some? {
      var (st1, next) := Grow(st, n, r).value;
      SoundStep(st, n, ch, data[..cap], st1, next);
      var st2 := Put(st1, n, r, data[..cap], next);
      if |ch| > 1 {
        FirstTaken(st2, n, ch[1..], data[cap..]);
      } else {
        WriteTouches(st2, n, next, data[cap..]);
        FirstRegionFree(st, n);
      }
    }
  }

  lemma FirstRegionFree(st: Store, n: nat)
    requires GridOk(st, n) && st.bits != [] && !st.bits[0]
    ensures FirstFit(st.bits, n) == Some(0)
  {
    GroupInGrid(|st.bits|, n, 0);
    forall i | 0 <= i < n
      ensures !st.bits[i]
    {
      GroupOf(i, n, 0);
    }
    assert Free(st.bits, 0, n);
  }

  lemma VisitsCut(bits: seq<bool>, ch: seq<nat>, bits': seq<bool>, vis: seq<nat>)
    requires bits != [] && ch != [] && vis != [] && Visits(bits, ch, bits', vis)
    requires forall k :: 0 < k < |ch| ==> ch[k] != 0
    requires |vis| > |ch| && !bits[0] ==> vis[|ch|] == 0
    ensures Cut(vis) == if |vis| > |ch| && !bits[0] then |ch| else |vis|
  {
    var c := if |vis| > |ch| && !bits[0] then |ch| else |vis|;
    forall k | 0 < k < c
      ensures vis[k] != 0
    {
      if k < |ch| && |vis| > |ch| {
        assert vis[k] == vis[..|ch|][k];
      } else if k >= |ch| {
        assert vis[k] in vis;
      }
    }
    CutIs(vis, c);
  }

  /** The write is cut exactly when it had to extend the chain while region 0 was free. */
  lemma WriteCut(st: Store, n: nat, ch: seq<nat>, data: seq<byte>)
    requires Sound(st, n, ch)
    ensures var vis := WriteFrom(st, n, ch[0], data).visited;
      && vis != []
      && Cut(vis) == if |vis| > |ch| && !st.bits[0] then |ch| else |vis|
  {
    LinkedInGrid(st, n, ch);
    WriteTouches(st, n, ch[0], data);
    WriteVisits(st, n, ch, data);
    if !st.bits[0] {
      FirstTaken(st, n, ch, data);
    }
    var w := WriteFrom(st, n, ch[0], data);
    VisitsCut(st.bits, ch, w.store.bits, w.visited);
  }

  /** What a read returns after a write into a sound chain: the data, unless the write had to extend
      the chain while region 0 was free; then reading stops where the old chain ended. */
  lemma RoundTrip(st: Store, n: nat, ch: seq<nat>, data: seq<byte>, m: nat)
    requires Sound(st, n, ch)
    requires m <= WriteFrom(st, n, ch[0], data).size
    ensures var w := WriteFrom(st, n, ch[0], data);
      && w.size <= |data|
      && ReadFrom(w.store, n, ch[0], m)
         == data[..if st.bits[0] || |data| <= Room(n, |ch|) then m else Min(m, Room(n, |ch|))]
  {
    var w := WriteFrom(st, n, ch[0], data);
    WriteSize(st, n, ch[0], data);
    WriteCut(st, n, ch, data);
    WriteTouches(st, n, ch[0], data);
    WriteHolds(st, n, ch, data);
    ReadBack(w.store, n, w.visited, data, m);
    if |w.visited| > |ch| {
      RoomGrows(n, |ch|, |w.visited| - 1);
    } else {
      RoomGrows(n, |w.visited|, |ch|);
    }
  }

  // ---------------------------------------------------------------- other files

  /** `st` and `st'` agree on the sectors of the regions `ch`. */
  ghost predicate SameOn(st: Store, st': Store, n: nat, ch: seq<nat>)
    requires n > 0
  {
    && |st'.sectors| == |st.sectors| && |st'.bits| == |st.bits|
    && forall i :: 0 <= i < |st.sectors| && GroupStart(i, n) in ch ==> st'.sectors[i] == st.sectors[i]
  }

  lemma SameNext(st: Store, st': Store, n: nat, ch: seq<nat>, q: nat)
    requires n > 0 && SameOn(st, st', n, ch) && q in ch && OnGrid(q, n) && q + n <= |st.sectors|
    ensures Next(st', n, q) == Next(st, n, q) && RegionBytes(st', n, q) == RegionBytes(st, n, q)
  {
    GroupOf(q + n - 1, n, q);
    forall i | 0 <= i < Capacity(n)
      ensures st'.sectors[q + i / 512] == st.sectors[q + i / 512]
    {
      GroupOf(q + i / 512, n, q);
    }
    assert RegionBytes(st', n, q) == RegionBytes(st, n, q);
  }

  /** A chain depends only on its own regions, and so do the bytes read along it. */
  lemma {:induction false} SameChain(st: Store, st': Store, n: nat, ch: seq<nat>, m: nat)
    requires GridOk(st, n) && GridOk(st', n) && Linked(st, n, ch) && SameOn(st, st', n, ch)
    ensures Linked(st', n, ch)
    ensures ReadFrom(st', n, ch[0], m) == ReadFrom(st, n, ch[0], m)
    decreases |ch|
  {
    SameNext(st, st', n, ch, ch[0]);
    if |ch| > 1 {
      SameChain(st, st', n, ch[1..], if m <= Capacity(n) then 0 else m - Capacity(n));
    }
  }

  ghost predicate Apart(ch: seq<nat>, ch': seq<nat>) {
    forall q :: q in ch ==> q !in ch'
  }

  /** A write to one file leaves the chain and the bytes of every other file as they were. */
  lemma WriteKeepsOthers(st: Store, n: nat, ch: seq<nat>, data: seq<byte>, other: seq<nat>, m: nat)
    requires Sound(st, n, ch) && Linked(st, n, other) && Taken(st.bits, other) && Apart(ch, other)
    ensures var w := WriteFrom(st, n, ch[0], data);
      && Linked(w.store, n, other) && Taken(w.store.bits, other) && Apart(w.visited, other)
      && ReadFrom(w.store, n, other[0], m) == ReadFrom(st, n, other[0], m)
  {
    LinkedInGrid(st, n, ch);
    WriteTouches(st, n, ch[0], data);
    WriteVisits(st, n, ch, data);
    SameChain(st, WriteFrom(st, n, ch[0], data).store, n, other, m);
  }

  // ---------------------------------------------------------------- the chain after a write

  lemma {:induction false} HoldsLinked(st: Store, n: nat, vis: seq<nat>, data: seq<byte>)
    requires GridOk(st, n) && Holds(st, n, vis, data)
    ensures 0 < Cut(vis) <= |vis| && Linked(st, n, vis[..Cut(vis)])
  {
    var cap, c := Capacity(n), Cut(vis);
    var chunk := if |data| <= cap then data else data[..cap];
    PointsAt(st, n, vis[0], chunk, if |vis| == 1 then 0 else vis[1]);
    if c > 1 {
      HoldsLinked(st, n, vis[1..], data[cap..]);
      assert vis[..c][1..] == vis[1..][..c - 1];
    } else {
      assert vis[..c] == [vis[0]];
    }
  }

  lemma PrefixOk(bits: seq<bool>, vis: seq<nat>, c: nat)
    requires Distinct(vis) && Taken(bits, vis) && 0 < c <= |vis|
    ensures Distinct(vis[..c]) && Taken(bits, vis[..c])
  {
    forall q | q in vis[..c]
      ensures q in vis
    {
    }
  }

  /** After a write the file's chain is what was visited, up to a pointer to region 0. */
  lemma WriteLinked(st: Store, n: nat, ch: seq<nat>, data: seq<byte>)
    requires Sound(st, n, ch)
    ensures var w := WriteFrom(st, n, ch[0], data);
      && 0 < Cut(w.visited) <= |w.visited|
      && Sound(w.store, n, w.visited[..Cut(w.visited)])
      && w.visited[..Cut(w.visited)][0] == ch[0]
  {
    LinkedInGrid(st, n, ch);
    WriteHolds(st, n, ch, data);
    WriteVisits(st, n, ch, data);
    var w := WriteFrom(st, n, ch[0], data);
    HoldsLinked(w.store, n, w.visited, data);
    PrefixOk(w.store.bits, w.visited, Cut(w.visited));
  }

  // ---------------------------------------------------------------- freeing

  /** `bits'` is `bits` with the regions `ch` cleared. */
  ghost predicate Cleared(bits: seq<bool>, bits': seq<bool>, n: nat, ch: seq<nat>)
    requires n > 0
  {
    |bits'| == |bits| && forall i :: 0 <= i < |bits| ==> bits'[i] == (bits[i] && GroupStart(i, n) !in ch)
  }

  lemma MarkClears(bits: seq<bool>, n: nat, r: nat)
    requires n > 0 && OnGrid(r, n)
    ensures Cleared(bits, Mark(bits, r, n, false), n, [r])
  {
    forall i | 0 <= i < |bits|
      ensures GroupStart(i, n) == r <==> r <= i < r + n
    {
      GroupOf(i, n, r);
    }
  }

  lemma ClearedThen(a: seq<bool>, b: seq<bool>, c: seq<bool>, n: nat, r: nat, ch: seq<nat>)
    requires n > 0 && Cleared(a, b, n, [r]) && Cleared(b, c, n, ch)
    ensures Cleared(a, c, n, [r] + ch)
  {
  }

  /** Freeing enough regions of a chain clears exactly the bits of the chain. */
  lemma {:induction false} FreeExact(st: Store, n: nat, ch: seq<nat>, count: nat, bits: seq<bool>)
    requires GridOk(st, n) && Linked(st, n, ch) && Distinct(ch) && |ch| <= count
    ensures Cleared(bits, FreeFrom(st, n, ch[0], count, bits), n, ch)
    decreases count
  {
    var bits1 := Mark(bits, ch[0], n, false);
    MarkClears(bits, n, ch[0]);
    if |ch| > 1 {
      FreeExact(st, n, ch[1..], count - 1, bits1);
      ClearedThen(bits, bits1, FreeFrom(st, n, ch[1], count - 1, bits1), n, ch[0], ch[1..]);
      assert ch == [ch[0]] + ch[1..];
    } else {
      assert ch == [ch[0]];
    }
  }

  /** The number of regions looked at is always enough to hold the file. */
  lemma CountEnough(size: u64, n: nat)
    requires n > 0 && size + 7 < U64
    ensures size <= Room(n, FreeCount(size, n))
  {
    var c := FreeCount(size, n);
    var s8 := (size + 7) / 8 * 8;
    RoomIs(n, c);
    if Capacity(n) * c < size {
      assert Capacity(n) * c >= (2 * n) * c by {
        assert Capacity(n) >= 2 * n;
        MulMono(2 * n, Capacity(n), c);
      }
      assert (2 * n) * c == n * (2 * c);
      assert s8 >= n * (2 * c);
      DivAtLeast(s8, n, 2 * c);
    }
  }

  lemma {:induction false} RoomIs(n: nat, k: nat)
    requires n > 0
    ensures Room(n, k) == Capacity(n) * k
  {
    if k > 0 {
      RoomIs(n, k - 1);
      assert Capacity(n) * k == Capacity(n) * (k - 1) + Capacity(n);
    }
  }

  lemma MulMono(a: int, b: int, c: int)
    requires a <= b && c >= 0
    ensures a * c <= b * c
  {
  }

  lemma DivAtLeast(v: nat, d: nat, q: nat)
    requires d > 0 && v >= d * q
    ensures v / d >= q
  {
    assert v == d * (v / d) + v % d;
    if v / d < q {
      MulMono(v / d + 1, q, d);
    }
  }

  /** What a write can leave as a file's size and chain is always freed completely. */
  lemma SizeCoversChain(size: u64, n: nat, k: nat)
    requires n > 0 && size + 7 < U64 && k > 0
    requires k > 1 ==> Room(n, k - 1) < size
    ensures k <= FreeCount(size, n)
  {
    CountEnough(size, n);
    if FreeCount(size, n) < k {
      RoomGrows(n, FreeCount(size, n), k - 1);
    }
  }

  /** Whatever a write leaves, a removal looks at enough regions for the whole chain. */
  lemma WriteCounted(st: Store, n: nat, ch: seq<nat>, data: seq<byte>)
    requires Sound(st, n, ch) && |data| + 7 < U64
    ensures var w := WriteFrom(st, n, ch[0], data);
      0 < Cut(w.visited) <= |w.visited| <= FreeCount(w.size, n)
  {
    WriteSize(st, n, ch[0], data);
    WriteCut(st, n, ch, data);
    var w := WriteFrom(st, n, ch[0], data);
    SizeCoversChain(w.size, n, |w.visited|);
  }

  /** Removing a file after a write clears exactly the bits of the chain the write left. */
  lemma WriteThenFree(st: Store, n: nat, ch: seq<nat>, data: seq<byte>)
    requires Sound(st, n, ch) && |data| + 7 < U64
    ensures var w := WriteFrom(st, n, ch[0], data);
      && 0 < Cut(w.visited) <= |w.visited|
      && Cleared(w.store.bits, FreeFrom(w.store, n, ch[0], FreeCount(w.size, n), w.store.bits), n,
                 w.visited[..Cut(w.visited)])
  {
    WriteCounted(st, n, ch, data);
    WriteLinked(st, n, ch, data);
    var w := WriteFrom(st, n, ch[0], data);
    FreeExact(w.store, n, w.visited[..Cut(w.visited)], FreeCount(w.size, n), w.store.bits);
  }

  /** Taking a region, writing from it and removing what that left restores the bitmap, as long as no later
      region of the file can be region 0. */
  lemma TakeWriteFree(st: Store, n: nat, r: nat, data: seq<byte>)
    requires GridOk(st, n) && FreeEnds(st, n) && InGrid(|st.bits|, n, r) && Free(st.bits, r, n)
    requires (st.bits[0] || r == 0) && |data| + 7 < U64
    ensures var st1 := st.(bits := Mark(st.bits, r, n, true));
      GridOk(st1, n)
      && var w := WriteFrom(st1, n, r, data);
         FreeFrom(w.store, n, r, FreeCount(w.size, n), w.store.bits) == st.bits
  {
    hide WriteFrom, FreeFrom, FreeCount, Visits, Touches, Cleared, Mark, Cut, FreeEnds, Linked, Distinct, Taken, Put;
    var st1 := st.(bits := Mark(st.bits, r, n, true));
    TakenRegions(st, n, r, data);
    WriteThenFree(st1, n, [r], data);
    var w := WriteFrom(st1, n, r, data);
    assert w.visited[..|w.visited|] == w.visited;
    AllGivenBack(st, n, r, w.store, w.visited, FreeFrom(w.store, n, r, FreeCount(w.size, n), w.store.bits));
  }

  /** Writing from a region just taken: every region visited stays visible to a reader. */
  lemma TakenRegions(st: Store, n: nat, r: nat, data: seq<byte>)
    requires GridOk(st, n) && FreeEnds(st, n) && InGrid(|st.bits|, n, r) && Free(st.bits, r, n) && (st.bits[0] || r == 0)
    ensures var st1 := st.(bits := Mark(st.bits, r, n, true));
      Sound(st1, n, [r])
      && var w := WriteFrom(st1, n, r, data);
         && Cut(w.visited) == |w.visited|
         && Touches(st, w.store, n, w.visited) && Visits(st1.bits, [r], w.store.bits, w.visited)
  {
    var st1 := st.(bits := Mark(st.bits, r, n, true));
    FreshSound(st, n, r);
    assert st1.bits[0];
    WriteCut(st1, n, [r], data);
    WriteTouches(st1, n, r, data);
    WriteVisits(st1, n, [r], data);
    MarkTouches(st, n, r);
    hide WriteFrom, Sound, Visits, Touches, FreeEnds;
    var w := WriteFrom(st1, n, r, data);
    TouchesThen(st, st1, w.store, n, [r], w.visited, w.visited);
  }

  lemma AllGivenBack(st: Store, n: nat, r: nat, st': Store, vis: seq<nat>, bits: seq<bool>)
    requires n > 0 && Uniform(st.bits, n) && Touches(st, st', n, vis)
    requires InGrid(|st.bits|, n, r) && !st.bits[r]
    requires Visits(Mark(st.bits, r, n, true), [r], st'.bits, vis)
    requires Cleared(st'.bits, bits, n, vis)
    ensures bits == st.bits
  {
    hide Mark, Visits, GroupStart, InGrid;
    forall i | 0 <= i < |st.bits|
      ensures bits[i] == st.bits[i]
    {
      if st.bits[i] {
        TakenNotVisited(st, n, r, st', vis, GroupStart(i, n));
      }
    }
  }

  /** A region taken before the file was made is not visited by writing to the file. */
  lemma TakenNotVisited(st: Store, n: nat, r: nat, st': Store, vis: seq<nat>, g: nat)
    requires n > 0 && InGrid(|st.bits|, n, r) && !st.bits[r] && g < |st.bits| && st.bits[g]
    requires Visits(Mark(st.bits, r, n, true), [r], st'.bits, vis)
    ensures g !in vis
  {
    assert Mark(st.bits, r, n, true)[g];
  }

  /** A region just taken is a sound one-region file. */
  lemma FreshSound(st: Store, n: nat, r: nat)
    requires GridOk(st, n) && FreeEnds(st, n) && InGrid(|st.bits|, n, r) && Free(st.bits, r, n)
    ensures Sound(st.(bits := Mark(st.bits, r, n, true)), n, [r])
  {
    var st1 := st.(bits := Mark(st.bits, r, n, true));
    MarkKeepsGrid(st, n, r, true);
    assert !st.bits[r];
    assert Next(st1, n, r) == Next(st, n, r);
    forall q: nat | InGrid(|st.bits|, n, q) && !st1.bits[q]
      ensures IsEnd(Next(st1, n, q))
    {
      assert Next(st1, n, q) == Next(st, n, q);
    }
  }
}
