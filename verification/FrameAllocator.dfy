/** The physical frame allocator: a bitmap of 4096-byte frames that lies in the memory it manages. */
module FrameAllocator {
  import opened Bytes
  import opened Bits

  const FRAME := 4096

  /** One entry of the boot loader's memory map. */
  datatype Range = Range(base: u64, length: u64, usable: bool)

  // ---------------------------------------------------------------- the memory map

  /** No address computed from the map overflows. */
  predicate MapOk(ranges: seq<Range>) {
    forall i :: 0 <= i < |ranges| ==> ranges[i].base + ranges[i].length + FRAME - 1 < U64
  }

  /** The end of the highest usable range among the first `i`. */
  function Hi(ranges: seq<Range>, i: nat): (h: u64)
    requires i <= |ranges| && MapOk(ranges)
    ensures h + FRAME - 1 < U64
    ensures forall j :: 0 <= j < i && ranges[j].usable ==> ranges[j].base + ranges[j].length <= h
  {
    if i == 0 then 0
    else
      var h, e := Hi(ranges, i - 1), ranges[i - 1];
      if e.usable && e.base + e.length > h then e.base + e.length else h
  }

  function TotalFrames(ranges: seq<Range>): u64
    requires MapOk(ranges)
  {
    (Hi(ranges, |ranges|) + FRAME - 1) / FRAME
  }

  function BitmapSize(ranges: seq<Range>): u64
    requires MapOk(ranges)
  {
    (TotalFrames(ranges) + 7) / 8
  }

  /** The first usable range, from the `i`-th on, that is long enough for the bitmap. */
  function Home(ranges: seq<Range>, size: nat, i: nat := 0): (j: Option<nat>)
    requires i <= |ranges|
    ensures j.Some? ==> i <= j.value < |ranges| && ranges[j.value].usable && ranges[j.value].length >= size
    ensures forall k :: i <= k < (if j.Some? then j.value else |ranges|) ==> !ranges[k].usable || ranges[k].length < size
    decreases |ranges| - i
  {
    if i == |ranges| then None
    else if ranges[i].usable && ranges[i].length >= size then Some(i)
    else Home(ranges, size, i + 1)
  }

  /** Every usable range ends at or below frame `n`. */
  predicate Covers(ranges: seq<Range>, n: nat) {
    forall i :: 0 <= i < |ranges| && ranges[i].usable ==> ranges[i].base + ranges[i].length <= n * FRAME
  }

  lemma {:induction false} HiIsEnd(ranges: seq<Range>, i: nat)
    requires i <= |ranges| && MapOk(ranges)
    ensures Hi(ranges, i) == 0
      || exists j :: 0 <= j < i && ranges[j].usable && ranges[j].base + ranges[j].length == Hi(ranges, i)
  {
    if i > 0 {
      HiIsEnd(ranges, i - 1);
      if Hi(ranges, i) != Hi(ranges, i - 1) {
        assert ranges[i - 1].usable && ranges[i - 1].base + ranges[i - 1].length == Hi(ranges, i);
      }
    }
  }

  /** The frames counted are the fewest that all usable memory lies in. */
  lemma TotalIsLeast(ranges: seq<Range>, n: nat)
    requires MapOk(ranges)
    ensures Covers(ranges, n) <==> TotalFrames(ranges) <= n
  {
    HiIsEnd(ranges, |ranges|);
    var hi, total := Hi(ranges, |ranges|), TotalFrames(ranges);
    assert hi <= n * FRAME <==> total <= n;
  }

  /** The bitmap has the fewest bytes with a bit for each of them. */
  lemma SizeIsLeast(ranges: seq<Range>, s: nat)
    requires MapOk(ranges)
    ensures TotalFrames(ranges) <= 8 * s <==> BitmapSize(ranges) <= s
  {
  }

  /** It lies in the first usable range that is long enough. */
  lemma HomeIsFirst(ranges: seq<Range>, size: nat, j: nat)
    ensures Home(ranges, size) == Some(j) <==>
      && j < |ranges| && ranges[j].usable && ranges[j].length >= size
      && forall k :: 0 <= k < j ==> !ranges[k].usable || ranges[k].length < size
    ensures Home(ranges, size) == None <==>
      forall k :: 0 <= k < |ranges| ==> !ranges[k].usable || ranges[k].length < size
  {
  }

  predicate InRange(e: Range, k: nat) {
    e.usable && e.base / FRAME <= k < e.base / FRAME + e.length / FRAME
  }

  /** A usable range gives as many frames as fit its length, from the one it begins in on. */
  lemma RangeFrames(e: Range, k: nat)
    ensures InRange(e, k) <==>
      e.usable && e.base < (k + 1) * FRAME && (k - e.base / FRAME + 1) * FRAME <= e.length
  {
  }

  /** Frame `k` lies in one of the first `i` ranges. */
  predicate Usable(ranges: seq<Range>, i: nat, k: nat)
    requires i <= |ranges|
  {
    i > 0 && (Usable(ranges, i - 1, k) || InRange(ranges[i - 1], k))
  }

  lemma {:induction false} UsableMeans(ranges: seq<Range>, i: nat, k: nat)
    requires i <= |ranges|
    ensures Usable(ranges, i, k) <==> exists j :: 0 <= j < i && InRange(ranges[j], k)
  {
    if i > 0 { UsableMeans(ranges, i - 1, k); }
  }

  /** Frame `k` is one that init reserves for the bitmap. */
  predicate Own(phys: nat, size: nat, k: nat) {
    phys / FRAME <= k < phys / FRAME + (size + FRAME - 1) / FRAME
  }

  /** On an aligned range these are the frames that the bitmap has a byte in. */
  lemma OwnFrames(phys: nat, size: nat, k: nat)
    requires phys % FRAME == 0
    ensures Own(phys, size, k) <==> exists a {:trigger a / FRAME} :: phys <= a < phys + size && a / FRAME == k
  {
    if Own(phys, size, k) {
      assert phys <= k * FRAME < phys + size && k * FRAME / FRAME == k;
    }
  }

  lemma RangeFits(ranges: seq<Range>, i: nat, size: nat)
    requires MapOk(ranges) && i < |ranges| && ranges[i].usable && size <= ranges[i].length
    ensures ranges[i].base / FRAME + ranges[i].length / FRAME <= TotalFrames(ranges) <= 8 * BitmapSize(ranges)
    ensures ranges[i].base / FRAME + (size + FRAME - 1) / FRAME <= TotalFrames(ranges)
  {
  }

  // ---------------------------------------------------------------- the bitmap in memory

  /** The bitmap that starts at address `phys` and has `size` bytes. */
  ghost function Flags(mem: seq<byte>, phys: nat, size: nat): (f: seq<bool>)
    requires phys + size <= |mem|
    ensures |f| == 8 * size && forall k :: 0 <= k < |f| ==> f[k] == BitOf(mem[phys + k / 8], k % 8)
  {
    seq(8 * size, k requires 0 <= k < 8 * size => BitOf(mem[phys + k / 8], k % 8))
  }

  /** Memory with flag `k` set or cleared. */
  function WithFlag(mem: seq<byte>, phys: nat, k: nat, v: bool): (m: seq<byte>)
    requires phys + k / 8 < |mem|
    ensures |m| == |mem| && forall a :: 0 <= a < |mem| && a != phys + k / 8 ==> m[a] == mem[a]
  {
    var a := phys + k / 8;
    mem[a := if v then SetBit(mem[a], k % 8) else ClearBit(mem[a], k % 8)]
  }

  lemma FlagWritten(mem: seq<byte>, phys: nat, size: nat, k: nat, v: bool)
    requires phys + size <= |mem| && k < 8 * size
    ensures Flags(WithFlag(mem, phys, k, v), phys, size) == Flags(mem, phys, size)[k := v]
  {
    var mem' := WithFlag(mem, phys, k, v);
    forall j | 0 <= j < 8 * size
      ensures BitOf(mem'[phys + j / 8], j % 8) == if j == k then v else BitOf(mem[phys + j / 8], j % 8)
    {
      if j / 8 == k / 8 && j % 8 == k % 8 { assert j == k; }
    }
  }

  /** `pmm_alloc_frame`: the memory it leaves and the address it returns, 0 when no frame is free. */
  ghost function Alloc(mem: seq<byte>, phys: nat, size: nat, total: nat): (seq<byte>, nat)
    requires phys + size <= |mem| && total <= 8 * size
  {
    match Lowest(Flags(mem, phys, size), total)
    case None => (mem, 0)
    case Some(k) => (WithFlag(mem, phys, k, true), k * FRAME)
  }

  lemma {:induction false} AllOnes(w: nat, j: nat)
    requires j < w
    ensures BitOf(Pow2(w) - 1, j)
  {
    if j > 0 {
      AllOnes(w - 1, j - 1);
      assert (Pow2(w) - 1) / 2 == Pow2(w - 1) - 1;
    }
  }

  /** The lowest clear flag below `total`, from `k` on. */
  function Lowest(f: seq<bool>, total: nat, k: nat := 0): (r: Option<nat>)
    requires total <= |f|
    ensures r.Some? ==> k <= r.value < total && !f[r.value]
    ensures forall j :: k <= j < (if r.Some? then r.value else total) ==> f[j]
    decreases total - k
  {
    if k >= total then None else if !f[k] then Some(k) else Lowest(f, total, k + 1)
  }

  lemma LowestIs(f: seq<bool>, total: nat, k: nat)
    requires k < total <= |f| && !f[k] && forall j :: 0 <= j < k ==> f[j]
    ensures Lowest(f, total) == Some(k)
  {
  }

  class Pmm {
    const memmap: seq<Range>
    const mem: array<byte>
    var phys: u64     // bitmap_phys
    var total: u64    // total_frame
    var size: u64     // bitmap_size

    ghost predicate Placed()
      reads this
    {
      phys + size <= mem.Length && total <= 8 * size
    }

    ghost function Bits(): (f: seq<bool>)
      reads this, mem
      requires Placed()
      ensures |f| == 8 * size
    {
      Flags(mem[..], phys, size)
    }

    /** Before init the globals are zero; memory holds anything. */
    constructor (memmap: seq<Range>, mem: array<byte>)
      ensures this.memmap == memmap && this.mem == mem && phys == total == size == 0
    {
      this.memmap, this.mem := memmap, mem;
      phys, total, size := 0, 0, 0;
    }

    method BitmapSet(k: nat)
      requires Placed() && k < 8 * size
      modifies mem
      ensures mem[..] == WithFlag(old(mem[..]), phys, k, true) && Bits() == old(Bits())[k := true]
    {
      FlagWritten(mem[..], phys, size, k, true);
      mem[phys + k / 8] := SetBit(mem[phys + k / 8], k % 8);
    }

    method BitmapClear(k: nat)
      requires Placed() && k < 8 * size
      modifies mem
      ensures mem[..] == WithFlag(old(mem[..]), phys, k, false) && Bits() == old(Bits())[k := false]
    {
      FlagWritten(mem[..], phys, size, k, false);
      mem[phys + k / 8] := ClearBit(mem[phys + k / 8], k % 8);
    }

    method BitmapRead(k: nat) returns (r: bool)
      requires Placed() && k < 8 * size
      ensures r == Bits()[k]
    {
      r := BitOf(mem[phys + k / 8], k % 8);
    }

    /** Sizing the bitmap and choosing where it lies. */
    method Place()
      requires MapOk(memmap) && phys == 0
      modifies this
      ensures Hi(memmap, |memmap|) <= mem.Length && (size == 0 || Home(memmap, size).Some?) ==> Placed()
      ensures total == TotalFrames(memmap) && size == BitmapSize(memmap)
      ensures match Home(memmap, size) case None => phys == 0 case Some(j) => phys == memmap[j].base
    {
      var hi: u64 := 0;
      for i := 0 to |memmap|
        invariant hi == Hi(memmap, i)
      {
        if !memmap[i].usable { continue; }
        var end := memmap[i].base + memmap[i].length;
        if end > hi { hi := end; }
      }
      total := (hi + FRAME - 1) / FRAME;
      size := (total + 7) / 8;
      for i := 0 to |memmap|
        invariant phys == 0 && size == BitmapSize(memmap) && total == TotalFrames(memmap)
        invariant Home(memmap, size) == Home(memmap, size, i)
      {
        if memmap[i].usable {
          if memmap[i].length >= size {
            phys := memmap[i].base;
            break;
          }
        }
      }
    }

    method FillOnes()
      requires Placed()
      modifies mem
      ensures forall k :: 0 <= k < 8 * size ==> Bits()[k]
      ensures forall a :: 0 <= a < mem.Length && !(phys <= a < phys + size) ==> mem[a] == old(mem[a])
    {
      for i := 0 to size
        invariant forall a :: 0 <= a < mem.Length ==> mem[a] == if phys <= a < phys + i then 0xFF else old(mem[a])
      {
        mem[phys + i] := 0xFF;
      }
      forall k | 0 <= k < 8 * size
        ensures Bits()[k]
      {
        AllOnes(8, k % 8);
        Pow2Eight();
      }
    }

    method ClearUsable()
      requires Placed() && MapOk(memmap) && size == BitmapSize(memmap)
      requires forall k :: 0 <= k < 8 * size ==> Bits()[k]
      modifies mem
      ensures forall k :: 0 <= k < 8 * size ==> Bits()[k] == !Usable(memmap, |memmap|, k)
      ensures forall a :: 0 <= a < mem.Length && !(phys <= a < phys + size) ==> mem[a] == old(mem[a])
    {
      for i := 0 to |memmap|
        invariant forall k :: 0 <= k < 8 * size ==> Bits()[k] == !Usable(memmap, i, k)
        invariant forall a :: 0 <= a < mem.Length && !(phys <= a < phys + size) ==> mem[a] == old(mem[a])
      {
        var e := memmap[i];
        if !e.usable { continue; }
        RangeFits(memmap, i, 0);
        var count := e.length / FRAME;
        for i2 := 0 to count
          invariant forall k :: 0 <= k < 8 * size ==>
            Bits()[k] == !(Usable(memmap, i, k) || e.base / FRAME <= k < e.base / FRAME + i2)
          invariant forall a :: 0 <= a < mem.Length && !(phys <= a < phys + size) ==> mem[a] == old(mem[a])
        {
          BitmapClear(i2 + e.base / FRAME);
        }
      }
    }

    /** `pmm_init`: a flag is clear exactly for the usable frames that are not the bitmap's own. */
    method Init()
      requires MapOk(memmap) && Hi(memmap, |memmap|) <= mem.Length && phys == 0
      requires BitmapSize(memmap) == 0 || Home(memmap, BitmapSize(memmap)).Some?
      modifies this, mem
      ensures Placed() && total == TotalFrames(memmap) && size == BitmapSize(memmap)
      ensures match Home(memmap, size) case None => phys == 0 case Some(j) => phys == memmap[j].base
      ensures forall k :: 0 <= k < 8 * size ==>
        Bits()[k] == !(Usable(memmap, |memmap|, k) && !Own(phys, size, k))
      ensures forall a :: 0 <= a < mem.Length && !(phys <= a < phys + size) ==> mem[a] == old(mem[a])
    {
      Place();
      FillOnes();
      ClearUsable();
      ReserveOwn();
    }

    method ReserveOwn()
      requires Placed() && MapOk(memmap) && total == TotalFrames(memmap) && size == BitmapSize(memmap)
      requires match Home(memmap, size) case None => size == 0 case Some(j) => phys == memmap[j].base
      modifies mem
      ensures forall k :: 0 <= k < 8 * size ==> Bits()[k] == (old(Bits())[k] || Own(phys, size, k))
      ensures forall a :: 0 <= a < mem.Length && !(phys <= a < phys + size) ==> mem[a] == old(mem[a])
    {
      if Home(memmap, size).Some? {
        RangeFits(memmap, Home(memmap, size).value, size);
      }
      for i3 := 0 to (size + FRAME - 1) / FRAME
        invariant forall k :: 0 <= k < 8 * size ==>
          Bits()[k] == (old(Bits())[k] || phys / FRAME <= k < phys / FRAME + i3)
        invariant forall a :: 0 <= a < mem.Length && !(phys <= a < phys + size) ==> mem[a] == old(mem[a])
      {
        BitmapSet(phys / FRAME + i3);
      }
    }

    /** `pmm_alloc_frame`: the address of the lowest free frame, or 0. */
    method AllocFrame() returns (r: nat)
      requires Placed()
      modifies mem
      ensures (mem[..], r) == old(Alloc(mem[..], phys, size, total))
    {
      for i := 0 to total
        invariant mem[..] == old(mem[..]) && forall j :: 0 <= j < i ==> Bits()[j]
      {
        var taken := BitmapRead(i);
        if !taken {
          LowestIs(Bits(), total, i);
          BitmapSet(i);
          return i * FRAME;
        }
      }
      assert Lowest(Bits(), total) == None;
      return 0;
    }

    /** `pmm_free_frame` */
    method FreeFrame(fa: nat)
      requires Placed() && fa / FRAME < 8 * size
      modifies mem
      ensures mem[..] == WithFlag(old(mem[..]), phys, fa / FRAME, false)
    {
      BitmapClear(fa / FRAME);
    }
  }

  // ---------------------------------------------------------------- runs

  /** The allocator and the frames it has handed out. */
  datatype Frames = Frames(mem: seq<byte>, phys: nat, size: nat, total: nat, held: set<nat>)

  ghost predicate Sized(s: Frames) {
    s.phys % FRAME == 0 && s.phys + s.size <= |s.mem| && s.total <= 8 * s.size
  }

  ghost function FreeSet(s: Frames): set<nat>
    requires Sized(s)
  {
    set k: nat | k < s.total && !Flags(s.mem, s.phys, s.size)[k]
  }

  /** Free and outstanding frames partition `all`, which has neither frame 0 nor the bitmap's own. */
  ghost predicate Partition(s: Frames, all: set<nat>) {
    && Sized(s)
    && FreeSet(s) !! s.held && FreeSet(s) + s.held == all
    && forall k :: k in all ==> 0 < k < s.total && !Own(s.phys, s.size, k)
  }

  /** What the kernel does with frames: take one, give one back, or store a byte in one it holds. */
  datatype Action = Take | Give(fa: nat) | Poke(address: nat, value: byte)

  ghost predicate Allowed(s: Frames, a: Action) {
    match a
    case Take => true
    case Give(fa) => fa / FRAME in s.held
    case Poke(address, _) => address < |s.mem| && address / FRAME in s.held
  }

  ghost function Act(s: Frames, a: Action, all: set<nat>): (s': Frames)
    requires Partition(s, all) && Allowed(s, a)
    ensures Partition(s', all)
  {
    match a
    case Take =>
      TakeKeeps(s, all);
      var (mem, r) := Alloc(s.mem, s.phys, s.size, s.total);
      s.(mem := mem, held := if r == 0 then s.held else s.held + {r / FRAME})
    case Give(fa) =>
      GiveKeeps(s, all, fa / FRAME);
      s.(mem := WithFlag(s.mem, s.phys, fa / FRAME, false), held := s.held - {fa / FRAME})
    case Poke(address, value) =>
      PokeKeeps(s, all, address, value);
      s.(mem := s.mem[address := value])
  }

  /** Taking a frame returns the lowest free one, and 0 exactly when none is free. */
  lemma TakeKeeps(s: Frames, all: set<nat>)
    requires Partition(s, all)
    ensures var (mem, r) := Alloc(s.mem, s.phys, s.size, s.total);
      if FreeSet(s) == {} then r == 0 && mem == s.mem
      else
        && r % FRAME == 0 && r != 0 && r / FRAME in FreeSet(s)
        && (forall k :: k in FreeSet(s) ==> r / FRAME <= k)
        && Partition(s.(mem := mem, held := s.held + {r / FRAME}), all)
        && FreeSet(s.(mem := mem)) == FreeSet(s) - {r / FRAME}
  {
    match Lowest(Flags(s.mem, s.phys, s.size), s.total)
    case None =>
      assert forall k :: k in FreeSet(s) ==> false;
    case Some(k) =>
      FlagWritten(s.mem, s.phys, s.size, k, true);
      assert k in FreeSet(s);
      assert (k * FRAME) / FRAME == k;
      var s' := s.(mem := WithFlag(s.mem, s.phys, k, true));
      assert FreeSet(s') == FreeSet(s) - {k};
  }

  lemma GiveKeeps(s: Frames, all: set<nat>, k: nat)
    requires Partition(s, all) && k in s.held
    ensures Partition(s.(mem := WithFlag(s.mem, s.phys, k, false), held := s.held - {k}), all)
  {
    FlagWritten(s.mem, s.phys, s.size, k, false);
    var s' := s.(mem := WithFlag(s.mem, s.phys, k, false));
    assert FreeSet(s') == FreeSet(s) + {k};
  }

  /** The bitmap cannot be overwritten through an allocated frame. */
  lemma PokeKeeps(s: Frames, all: set<nat>, address: nat, value: byte)
    requires Partition(s, all) && address < |s.mem| && address / FRAME in s.held
    ensures Partition(s.(mem := s.mem[address := value]), all)
    ensures FreeSet(s.(mem := s.mem[address := value])) == FreeSet(s)
  {
    assert !Own(s.phys, s.size, address / FRAME);
    assert !(s.phys <= address < s.phys + s.size);
    var mem' := s.mem[address := value];
    assert Flags(mem', s.phys, s.size) == Flags(s.mem, s.phys, s.size);
  }

  ghost predicate AllAllowed(s: Frames, acts: seq<Action>, all: set<nat>)
    requires Partition(s, all)
    decreases |acts|
  {
    acts == [] || (Allowed(s, acts[0]) && AllAllowed(Act(s, acts[0], all), acts[1..], all))
  }

  /** Over every run of allocations, frees of outstanding frames and stores into them, free and
      outstanding frames partition the same set. */
  ghost function Run(s: Frames, acts: seq<Action>, all: set<nat>): (s': Frames)
    requires Partition(s, all) && AllAllowed(s, acts, all)
    ensures Partition(s', all) && s'.phys == s.phys && s'.size == s.size && s'.total == s.total
    decreases |acts|
  {
    if acts == [] then s else Run(Act(s, acts[0], all), acts[1..], all)
  }

  // ---------------------------------------------------------------- what init sets up

  /** The usable frames that are not the bitmap's own. */
  ghost function Allocatable(ranges: seq<Range>, phys: nat, size: nat, total: nat): set<nat> {
    set k: nat | k < total && Usable(ranges, |ranges|, k) && !Own(phys, size, k)
  }

  /** All of frame `k` lies in the usable range `e`. */
  predicate Inside(e: Range, k: nat) {
    e.usable && e.base <= k * FRAME && k * FRAME + FRAME <= e.base + e.length
  }

  /** On aligned ranges a frame is usable exactly when all of it lies in one usable range. */
  lemma UsableFrames(ranges: seq<Range>, k: nat)
    requires MapOk(ranges) && forall i :: 0 <= i < |ranges| ==> ranges[i].base % FRAME == ranges[i].length % FRAME == 0
    ensures Usable(ranges, |ranges|, k) <==> exists i :: 0 <= i < |ranges| && Inside(ranges[i], k)
    ensures Usable(ranges, |ranges|, k) ==> k < TotalFrames(ranges)
  {
    UsableMeans(ranges, |ranges|, k);
    assert forall i :: 0 <= i < |ranges| ==> (InRange(ranges[i], k) <==> Inside(ranges[i], k));
    if i :| 0 <= i < |ranges| && InRange(ranges[i], k) {
      RangeFits(ranges, i, 0);
    }
  }

  /** What init leaves is a state in which every allocatable frame is free. */
  lemma InitPartition(p: Pmm)
    requires p.Placed() && p.phys % FRAME == 0
    requires forall k :: 0 <= k < 8 * p.size ==>
      p.Bits()[k] == !(Usable(p.memmap, |p.memmap|, k) && !Own(p.phys, p.size, k))
    requires Own(p.phys, p.size, 0) || !Usable(p.memmap, |p.memmap|, 0)
    ensures var s := Frames(p.mem[..], p.phys, p.size, p.total, {});
      var all := Allocatable(p.memmap, p.phys, p.size, p.total);
      Partition(s, all) && FreeSet(s) == all
  {
    var s := Frames(p.mem[..], p.phys, p.size, p.total, {});
    assert FreeSet(s) == Allocatable(p.memmap, p.phys, p.size, p.total);
  }
}
