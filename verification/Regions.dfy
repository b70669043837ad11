/**
 * Storage regions on values: what a file write, a file read and a file removal do to the
 * sectors of the storage area and to the allocation bitmap.
 *
 * A region is `n` consecutive storage sectors. The last eight bytes of its last sector name the
 * next region of the same file; 0 and 2^64-1 both end the chain. `n` divides 4096, the number of
 * bits in a bitmap sector; every file made through the public interface has n = 8.
 */
module Regions {
  import opened Bytes

  type Sector = s: seq<byte> | |s| == 512 witness seq(512, i => 0)

  /** The storage area and the bitmap that says which of its sectors are taken. */
  datatype Store = Store(sectors: seq<Sector>, bits: seq<bool>)

  // ---------------------------------------------------------------- the region grid

  /** `r` is a multiple of the region size. */
  predicate OnGrid(r: nat, n: nat)
    requires n > 0
    decreases r
  {
    r == 0 || (r >= n && OnGrid(r - n, n))
  }

  /** The multiple of the region size at or below sector `i`. */
  function GroupStart(i: nat, n: nat): (g: nat)
    requires n > 0
    ensures g <= i
    decreases i
  {
    if i < n then 0 else n + GroupStart(i - n, n)
  }

  predicate InGrid(limit: nat, n: nat, r: nat)
    requires n > 0
  {
    OnGrid(r, n) && r + n <= limit
  }

  lemma {:induction false} GroupOf(i: nat, n: nat, r: nat)
    requires n > 0 && OnGrid(r, n)
    ensures GroupStart(i, n) == r <==> r <= i < r + n
  {
    if r > 0 && i >= n {
      GroupOf(i - n, n, r - n);
    }
  }

  lemma {:induction false} GroupInGrid(limit: nat, n: nat, i: nat)
    requires n > 0 && OnGrid(limit, n) && i < limit
    ensures InGrid(limit, n, GroupStart(i, n))
  {
    if i >= n {
      GroupInGrid(limit - n, n, i - n);
    }
  }

  // ---------------------------------------------------------------- contents of one region

  function Capacity(n: nat): nat
    requires n > 0
  {
    (n - 1) * 512 + 504
  }

  /** The bytes that `k` regions hold. */
  function Room(n: nat, k: nat): nat
    requires n > 0
  {
    if k == 0 then 0 else Capacity(n) + Room(n, k - 1)
  }

  function Padded(chunk: seq<byte>, from: nat, len: nat): (s: seq<byte>)
    ensures |s| == len
    ensures forall k :: 0 <= k < len ==> s[k] == if from + k < |chunk| then chunk[from + k] else 0
  {
    seq(len, k requires 0 <= k < len => if from + k < |chunk| then chunk[from + k] else 0)
  }

  /** Sector `j` of a region that holds `chunk` and points at `next`. */
  function RegionSector(chunk: seq<byte>, n: nat, j: nat, next: nat): Sector
    requires j < n
  {
    if j == n - 1 then Padded(chunk, j * 512, 504) + LeBytes(next, 8)
    else Padded(chunk, j * 512, 512)
  }

  function Put(st: Store, n: nat, r: nat, chunk: seq<byte>, next: nat): (t: Store)
    requires n > 0
    ensures |t.sectors| == |st.sectors| && t.bits == st.bits
  {
    st.(sectors := seq(|st.sectors|, i requires 0 <= i < |st.sectors| => PutAt(st, n, r, chunk, next, i)))
  }

  function PutAt(st: Store, n: nat, r: nat, chunk: seq<byte>, next: nat, i: nat): Sector
    requires n > 0 && i < |st.sectors|
  {
    if r <= i < r + n then RegionSector(chunk, n, i - r, next) else st.sectors[i]
  }

  /** The pointer stored in the last eight bytes of a sector. */
  function PtrOf(s: Sector): u64 {
    LeBytesOfValue(s[504..]);
    Pow256Eight();
    LeValue(s[504..])
  }

  /** The source spells the little-endian value out byte by byte. */
  lemma PtrOfSpelledOut(s: Sector)
    ensures PtrOf(s)
      == s[504] as int + 0x100 * s[505] as int + 0x1_0000 * s[506] as int + 0x100_0000 * s[507] as int
       + 0x1_0000_0000 * s[508] as int + 0x100_0000_0000 * s[509] as int
       + 0x1_0000_0000_0000 * s[510] as int + 0x100_0000_0000_0000 * s[511] as int
  {
    var t := s[504..];
    assert LeValue(t[8..]) == 0;
    assert LeValue(t[7..]) == s[511] + 256 * LeValue(t[8..]);
    assert LeValue(t[6..]) == s[510] + 256 * LeValue(t[7..]);
    assert LeValue(t[5..]) == s[509] + 256 * LeValue(t[6..]);
    assert LeValue(t[4..]) == s[508] + 256 * LeValue(t[5..]);
    assert LeValue(t[3..]) == s[507] + 256 * LeValue(t[4..]);
    assert LeValue(t[2..]) == s[506] + 256 * LeValue(t[3..]);
    assert LeValue(t[1..]) == s[505] + 256 * LeValue(t[2..]);
  }

  lemma PtrOfRegionSector(chunk: seq<byte>, n: nat, next: nat)
    requires n > 0 && next < U64
    ensures PtrOf(RegionSector(chunk, n, n - 1, next)) == next
  {
    var s := RegionSector(chunk, n, n - 1, next);
    assert s[504..] == LeBytes(next, 8);
    Pow256Eight();
    LeValueOfBytes(next, 8);
  }

  function Next(st: Store, n: nat, r: nat): u64
    requires n > 0 && r + n <= |st.sectors|
  {
    PtrOf(st.sectors[r + n - 1])
  }

  predicate IsEnd(p: nat) { p == 0 || p == NOT_FOUND }

  // ---------------------------------------------------------------- the bitmap

  predicate Free(bits: seq<bool>, r: nat, n: nat)
    requires r + n <= |bits|
  {
    forall i :: r <= i < r + n ==> !bits[i]
  }

  /** The lowest start, from `k` on, of `n` clear bits in a row. */
  function FirstFit(bits: seq<bool>, n: nat, k: nat := 0): (f: Option<nat>)
    ensures f.Some? ==> k <= f.value && f.value + n <= |bits| && Free(bits, f.value, n)
    ensures forall r :: k <= r && r + n <= |bits| && Free(bits, r, n) ==> f.Some? && f.value <= r
    decreases |bits| - k
  {
    if k + n > |bits| then None
    else if Free(bits, k, n) then Some(k)
    else FirstFit(bits, n, k + 1)
  }

  function Mark(bits: seq<bool>, r: nat, n: nat, v: bool): (b: seq<bool>)
    ensures |b| == |bits|
    ensures forall i :: 0 <= i < |bits| ==> b[i] == if r <= i < r + n then v else bits[i]
  {
    seq(|bits|, i requires 0 <= i < |bits| => if r <= i < r + n then v else bits[i])
  }

  ghost predicate Uniform(bits: seq<bool>, n: nat)
    requires n > 0
  {
    forall i: nat {:trigger GroupStart(i, n)} :: i < |bits| ==> bits[i] == bits[GroupStart(i, n)]
  }

  /** What every run keeps, whatever was removed before: bits change by whole regions, and every
      region's pointer ends the chain or names a region. */
  ghost predicate GridOk(st: Store, n: nat) {
    n > 0 && OnGrid(|st.bits|, n) && |st.bits| <= |st.sectors| < NOT_FOUND
    && Uniform(st.bits, n)
    && forall r: nat {:trigger Next(st, n, r)} ::
        InGrid(|st.bits|, n, r) ==> IsEnd(Next(st, n, r)) || InGrid(|st.bits|, n, Next(st, n, r))
  }

  lemma MarkKeepsGrid(st: Store, n: nat, r: nat, v: bool)
    requires GridOk(st, n) && InGrid(|st.bits|, n, r)
    ensures GridOk(st.(bits := Mark(st.bits, r, n, v)), n)
  {
    var st' := st.(bits := Mark(st.bits, r, n, v));
    forall i | 0 <= i < |st.bits|
      ensures st'.bits[i] == st'.bits[GroupStart(i, n)]
    {
      GroupInGrid(|st.bits|, n, i);
      GroupOf(i, n, r);
      GroupOf(GroupStart(i, n), n, r);
      GroupOf(GroupStart(i, n), n, GroupStart(i, n));
    }
    forall q: nat | InGrid(|st'.bits|, n, q)
      ensures IsEnd(Next(st', n, q)) || InGrid(|st'.bits|, n, Next(st', n, q))
    {
      assert Next(st', n, q) == Next(st, n, q);
    }
  }

  /** Writing one region changes only that region's pointer. */
  lemma PutNext(st: Store, n: nat, r: nat, chunk: seq<byte>, next: nat, q: nat)
    requires n > 0 && OnGrid(r, n) && OnGrid(q, n) && next < U64
    requires r + n <= |st.sectors| && q + n <= |st.sectors|
    ensures Next(Put(st, n, r, chunk, next), n, q) == if q == r then next else Next(st, n, q)
  {
    var last := q + n - 1;
    GroupOf(last, n, r);
    GroupOf(last, n, q);
    if q == r {
      PtrOfRegionSector(chunk, n, next);
      assert Put(st, n, r, chunk, next).sectors[last] == RegionSector(chunk, n, n - 1, next);
    } else {
      assert Put(st, n, r, chunk, next).sectors[last] == st.sectors[last];
    }
  }

  lemma PutKeepsGrid(st: Store, n: nat, r: nat, chunk: seq<byte>, next: nat)
    requires GridOk(st, n) && InGrid(|st.bits|, n, r) && next < U64
    requires IsEnd(next) || InGrid(|st.bits|, n, next)
    ensures GridOk(Put(st, n, r, chunk, next), n)
  {
    var st' := Put(st, n, r, chunk, next);
    forall q: nat | InGrid(|st'.bits|, n, q)
      ensures IsEnd(Next(st', n, q)) || InGrid(|st'.bits|, n, Next(st', n, q))
    {
      PutNext(st, n, r, chunk, next, q);
    }
  }

  /** On a bitmap that changes by whole regions, the first fit is itself on the grid. */
  lemma FirstFitOnGrid(bits: seq<bool>, n: nat)
    requires n > 0 && OnGrid(|bits|, n) && Uniform(bits, n)
    ensures FirstFit(bits, n).Some? ==> InGrid(|bits|, n, FirstFit(bits, n).value)
  {
    var f := FirstFit(bits, n);
    if f.Some? {
      var g := GroupStart(f.value, n);
      GroupInGrid(|bits|, n, f.value);
      forall i | g <= i < g + n
        ensures !bits[i]
      {
        GroupOf(i, n, g);
        assert !bits[f.value];
      }
      assert Free(bits, g, n);
    }
  }

  // ---------------------------------------------------------------- writing

  /** Where a region that must be followed by more data continues: its old pointer if it has one,
      otherwise a newly taken region. */
  function Grow(st: Store, n: nat, r: nat): (g: Option<(Store, nat)>)
    requires GridOk(st, n) && InGrid(|st.bits|, n, r)
    ensures g.Some? ==> GridOk(g.value.0, n) && InGrid(|st.bits|, n, g.value.1)
    ensures g.Some? ==> |g.value.0.bits| == |st.bits| && g.value.0.sectors == st.sectors
  {
    if !IsEnd(Next(st, n, r)) then Some((st, Next(st, n, r)))
    else
      match FirstFit(st.bits, n)
      case None => None
      case Some(f) =>
        FirstFitOnGrid(st.bits, n);
        MarkKeepsGrid(st, n, f, true);
        Some((st.(bits := Mark(st.bits, f, n, true)), f))
  }

  /** The outcome of a write: the new store, the size recorded in the entry and the regions
      written, in order. */
  datatype Written = Written(store: Store, size: nat, visited: seq<nat>)

  /** Writing `data` from region `r` on. */
  function WriteFrom(st: Store, n: nat, r: nat, data: seq<byte>): (w: Written)
    requires GridOk(st, n) && InGrid(|st.bits|, n, r)
    ensures GridOk(w.store, n) && w.size <= |data| && w.visited != [] && w.visited[0] == r
    ensures |w.store.sectors| == |st.sectors| && |w.store.bits| == |st.bits|
    decreases |data|
  {
    var cap := Capacity(n);
    PutKeepsGrid(st, n, r, data, 0);
    if |data| <= cap then Written(Put(st, n, r, data, 0), |data|, [r])
    else
      PutKeepsGrid(st, n, r, data[..cap], 0);
      match Grow(st, n, r)
      case None => Written(Put(st, n, r, data[..cap], 0), cap, [r])
      case Some((st1, next)) =>
        PutKeepsGrid(st1, n, r, data[..cap], next);
        var w := WriteFrom(Put(st1, n, r, data[..cap], next), n, next, data[cap..]);
        Written(w.store, cap + w.size, [r] + w.visited)
  }

  // ---------------------------------------------------------------- reading

  function RegionBytes(st: Store, n: nat, r: nat): (s: seq<byte>)
    requires n > 0 && r + n <= |st.sectors|
    ensures |s| == Capacity(n)
  {
    seq(Capacity(n), i requires 0 <= i < Capacity(n) => st.sectors[r + i / 512][i % 512])
  }

  /** The first `m` bytes of the file that starts at region `r`, or fewer if its chain ends. */
  function ReadFrom(st: Store, n: nat, r: nat, m: nat): (s: seq<byte>)
    requires GridOk(st, n) && InGrid(|st.bits|, n, r)
    ensures |s| <= m
    decreases m
  {
    var cap := Capacity(n);
    if m <= cap then RegionBytes(st, n, r)[..m]
    else if IsEnd(Next(st, n, r)) then RegionBytes(st, n, r)
    else RegionBytes(st, n, r) + ReadFrom(st, n, Next(st, n, r), m - cap)
  }

  /** The bytes of some sectors, one after the other. */
  function Flat(sectors: seq<Sector>): (s: seq<byte>)
    ensures |s| == 512 * |sectors|
    ensures forall i :: 0 <= i < |s| ==> s[i] == sectors[i / 512][i % 512]
  {
    if sectors == [] then [] else Flat(sectors[..|sectors| - 1]) + sectors[|sectors| - 1]
  }

  /** All bytes of a region but its last eight belong to the file. */
  lemma RegionUsed(st: Store, n: nat, r: nat)
    requires n > 0 && r + n <= |st.sectors|
    ensures RegionBytes(st, n, r) + st.sectors[r + n - 1][504..] == Flat(st.sectors[r..r + n])
  {
  }

  // ---------------------------------------------------------------- freeing

  /** Clearing the bits of at most `count` regions of the chain at `r`. */
  function FreeFrom(st: Store, n: nat, r: nat, count: nat, bits: seq<bool>): (b: seq<bool>)
    requires GridOk(st, n) && InGrid(|st.bits|, n, r) && count > 0
    ensures |b| == |bits|
    decreases count
  {
    var bits1 := Mark(bits, r, n, false);
    if count == 1 || IsEnd(Next(st, n, r)) then bits1
    else FreeFrom(st, n, Next(st, n, r), count - 1, bits1)
  }

  lemma {:induction false} FreeKeepsGrid(st: Store, n: nat, r: nat, count: nat, bits: seq<bool>)
    requires GridOk(st, n) && InGrid(|st.bits|, n, r) && count > 0
    requires |bits| == |st.bits| && GridOk(st.(bits := bits), n)
    ensures GridOk(st.(bits := FreeFrom(st, n, r, count, bits)), n)
    decreases count
  {
    MarkKeepsGrid(st.(bits := bits), n, r, false);
    if count > 1 && !IsEnd(Next(st, n, r)) {
      FreeKeepsGrid(st, n, Next(st, n, r), count - 1, Mark(bits, r, n, false));
    }
  }

  /** The number of regions a removal looks at: it takes the byte size for sectors, rounds it up
      by 8 (in 64-bit arithmetic) and divides by the region size. */
  function FreeCount(size: u64, n: nat): (c: nat)
    requires n > 0
    ensures c > 0
  {
    var c := Add64(size, 7) / 8 * 8 / n;
    if c == 0 then 1 else c
  }
}
