/** The loops that write, read and free a file's regions on disk. */
module FileData {
  import opened Bytes
  import opened Regions
  import opened Entries
  import opened Disk
  import Bitmap

  method FsPtrFromSector(s: array<byte>) returns (p: u64)
    requires s.Length == 512
    ensures p == PtrOf(s[..])
  {
    PtrOfSpelledOut(s[..]);
    p := s[511] as int * 0x100_0000_0000_0000 + s[510] as int * 0x1_0000_0000_0000
       + s[509] as int * 0x100_0000_0000 + s[508] as int * 0x1_0000_0000
       + s[507] as int * 0x100_0000 + s[506] as int * 0x1_0000
       + s[505] as int * 0x100 + s[504] as int;
  }

  method FsPtrToSector(s: array<byte>, v: u64)
    requires s.Length == 512
    modifies s
    ensures s[..] == old(s[..504]) + LeBytes(v, 8)
  {
    for k := 0 to 8
      invariant s[..504] == old(s[..504])
      invariant s[504..504 + k] == LeBytes(v, 8)[..k]
    {
      LeByteAt(v, 8, k);
      s[504 + k] := v / Pow256(k) % 256;
      assert s[504..504 + k + 1] == s[504..504 + k] + [s[504 + k]];
      assert LeBytes(v, 8)[..k + 1] == LeBytes(v, 8)[..k] + [LeBytes(v, 8)[k]];
    }
    assert s[..] == s[..504] + s[504..512];
  }

  /** The first `payload` bytes of a sector take the chunk's bytes from `off` on, then zeros. */
  method FillSector(buf: array<byte>, src: seq<byte>, written: nat, chunk: nat, off: nat, payload: nat)
    requires buf.Length == 512 && payload <= 512 && written + chunk <= |src|
    modifies buf
    ensures buf[..] == Padded(src[written..written + chunk], off, payload) + old(buf[payload..])
  {
    ghost var want := Padded(src[written..written + chunk], off, payload);
    for k := 0 to payload
      invariant forall i :: 0 <= i < k ==> buf[i] == want[i]
      invariant forall i :: k <= i < 512 ==> buf[i] == old(buf[i])
    {
      var idx := off + k;
      buf[k] := if idx < chunk then src[written + idx] else 0;
    }
  }

  /** The sectors of region `r` written one by one, before its last sector. */
  ghost function PutFirst(st: Store, n: nat, r: nat, chunk: seq<byte>, j: nat): (t: Store)
    requires j < n && r + n <= |st.sectors|
    ensures |t.sectors| == |st.sectors| && t.bits == st.bits
    ensures forall i :: 0 <= i < |st.sectors| ==>
      t.sectors[i] == if r <= i < r + j then RegionSector(chunk, n, i - r, 0) else st.sectors[i]
  {
    if j == 0 then st
    else
      var t := PutFirst(st, n, r, chunk, j - 1);
      t.(sectors := t.sectors[r + j - 1 := RegionSector(chunk, n, j - 1, 0)])
  }

  lemma PutLast(st: Store, n: nat, r: nat, chunk: seq<byte>, next: nat)
    requires n > 0 && r + n <= |st.sectors|
    ensures var t := PutFirst(st, n, r, chunk, n - 1);
      Put(st, n, r, chunk, next) == t.(sectors := t.sectors[r + n - 1 := RegionSector(chunk, n, n - 1, next)])
  {
    var t := PutFirst(st, n, r, chunk, n - 1);
    var u := t.(sectors := t.sectors[r + n - 1 := RegionSector(chunk, n, n - 1, next)]);
    forall i | 0 <= i < |st.sectors|
      ensures Put(st, n, r, chunk, next).sectors[i] == u.sectors[i]
    {
    }
  }

  /** What one pass of the outer write loop does when more data follows: the region's chunk is
      written and the region points at the one the rest goes to, if there is any. */
  ghost function AfterRegion(st: Store, n: nat, r: nat, chunk: seq<byte>, more: bool): (t: (Store, Option<nat>))
    requires GridOk(st, n) && InGrid(|st.bits|, n, r)
  {
    if !more then (Put(st, n, r, chunk, 0), None)
    else
      match Grow(st, n, r)
      case None => (Put(st, n, r, chunk, 0), None)
      case Some((st1, next)) => (Put(st1, n, r, chunk, next), Some(next))
  }

  /** The volume can hold files of `n`-sector regions and is in a state that some run reaches. */
  ghost predicate Writable(v: Volume, n: nat)
    reads v
  {
    v.Mounted() && n > 0 && OnGrid(4096, n) && GridOk(v.Img().store, n)
  }

  /** Reading and writing storage sector `i`. */
  method StorageRead(v: Volume, i: nat, buf: array<byte>)
    requires v.startStorage + i < |v.lba| && buf.Length == 512
    modifies buf
    ensures buf[..] == v.lba[v.startStorage + i]
  {
    var stat := v.AtaRead(v.startStorage + i, buf);
  }

  method StorageWrite(v: Volume, i: nat, buf: array<byte>)
    requires v.Mounted() && i < |v.Img().store.sectors| && buf.Length == 512
    modifies v`lba
    ensures v.Mounted()
    ensures v.Img() == old(v.Img().(store := v.Img().store.(sectors := v.Img().store.sectors[i := buf[..]])))
  {
    StorageWritten(v.lba, v.bm, v.startStorage + i, buf[..]);
    var stat := v.AtaWrite(v.startStorage + i, buf);
  }

  method WriteWholeSector(v: Volume, n: nat, r: nat, src: seq<byte>, written: nat, chunk: nat, j: nat, buf: array<byte>)
    requires v.Mounted() && j < n - 1 && r + n <= |v.Img().store.sectors|
    requires written + chunk <= |src| && buf.Length == 512
    modifies v`lba, buf
    ensures v.Mounted()
    ensures v.Img() == old(v.Img().(store := v.Img().store.(sectors :=
      v.Img().store.sectors[r + j := RegionSector(src[written..written + chunk], n, j, 0)])))
  {
    StorageRead(v, r + j, buf);
    FillSector(buf, src, written, chunk, j * 512, 512);
    assert buf[..] == RegionSector(src[written..written + chunk], n, j, 0);
    StorageWrite(v, r + j, buf);
  }

  /** The sectors of a region before its last one. */
  method WriteFirstSectors(v: Volume, n: nat, r: nat, src: seq<byte>, written: nat, chunk: nat)
    requires v.Mounted() && n > 0 && r + n <= |v.Img().store.sectors|
    requires written + chunk <= |src|
    modifies v`lba
    ensures v.Mounted()
    ensures v.Img() == old(v.Img()).(store := PutFirst(old(v.Img().store), n, r, src[written..written + chunk], n - 1))
  {
    hide ImageOf, BitsOf, TableOf;
    ghost var m, data := v.Img(), src[written..written + chunk];
    var buf := new byte[512];
    for j := 0 to n - 1
      invariant v.Mounted() && v.bm == old(v.bm)
      invariant v.Img() == m.(store := PutFirst(m.store, n, r, data, j))
    {
      WriteWholeSector(v, n, r, src, written, chunk, j, buf);
    }
  }

  /** Writing a region's first sectors moves no pointer and no bit, so the choice of the next region
      is the same before and after. */
  lemma PutFirstGrow(st: Store, n: nat, r: nat, chunk: seq<byte>)
    requires GridOk(st, n) && InGrid(|st.bits|, n, r)
    ensures var t := PutFirst(st, n, r, chunk, n - 1);
      && GridOk(t, n) && Next(t, n, r) == Next(st, n, r)
      && match Grow(st, n, r)
         case None => Grow(t, n, r) == None
         case Some((st1, next)) => Grow(t, n, r) == Some((PutFirst(st1, n, r, chunk, n - 1), next))
  {
    var t := PutFirst(st, n, r, chunk, n - 1);
    forall q: nat | InGrid(|st.bits|, n, q)
      ensures Next(t, n, q) == Next(st, n, q)
    {
      GroupOf(q + n - 1, n, r);
      GroupOf(q + n - 1, n, q);
      assert t.sectors[q + n - 1] == st.sectors[q + n - 1];
    }
    match Grow(st, n, r)
    case None =>
    case Some((st1, next)) =>
      assert PutFirst(st1, n, r, chunk, n - 1).sectors == t.sectors;
  }

  /** Where the rest of the data goes: the old next region, or a newly taken one. */
  method NextRegion(v: Volume, n: nat, oldNext: u64, ghost r: nat) returns (next: Option<nat>)
    requires Writable(v, n) && InGrid(4096 * v.bm, n, r) && oldNext == Next(v.Img().store, n, r)
    modifies v`lba
    ensures v.Mounted() && v.bm == old(v.bm)
    ensures match Grow(old(v.Img().store), n, r)
            case None => next == None && v.Img() == old(v.Img())
            case Some((st1, f)) => next == Some(f) && v.Img() == old(v.Img()).(store := st1)
  {
    if oldNext != 0 && oldNext != NOT_FOUND {
      return Some(oldNext);
    }
    var f := Bitmap.GetDataRegion(v, n);
    if f == NOT_FOUND {
      return None;
    }
    Bitmap.MarkRegion(v, f, n);
    return Some(f);
  }

  method WriteRegion(v: Volume, n: nat, r: nat, src: seq<byte>, written: nat, chunk: nat, more: bool) returns (next: Option<nat>)
    requires Writable(v, n) && InGrid(4096 * v.bm, n, r)
    requires written + chunk <= |src| && chunk <= Capacity(n)
    modifies v`lba
    ensures v.Mounted()
    ensures var t := AfterRegion(old(v.Img().store), n, r, src[written..written + chunk], more);
      v.Img() == old(v.Img()).(store := t.0) && next == t.1
  {
    ghost var m, data := v.Img(), src[written..written + chunk];
    WriteFirstSectors(v, n, r, src, written, chunk);
    PutFirstGrow(m.store, n, r, data);
    var buf := new byte[512];
    StorageRead(v, r + (n - 1), buf);
    var oldNext := FsPtrFromSector(buf);
    next := None;
    if more {
      next := NextRegion(v, n, oldNext, r);
    }
    WriteLastSector(v, n, r, src, written, chunk, if next.Some? then next.value else 0, buf,
                    if next.Some? then Grow(m.store, n, r).value.0 else m.store);
  }

  method WriteLastSector(v: Volume, n: nat, r: nat, src: seq<byte>, written: nat, chunk: nat, ptr: u64, buf: array<byte>,
                         ghost st: Store)
    requires v.Mounted() && n > 0 && r + n <= |st.sectors| == |v.Img().store.sectors|
    requires written + chunk <= |src| && buf.Length == 512
    requires v.Img().store == PutFirst(st, n, r, src[written..written + chunk], n - 1)
    modifies v`lba, buf
    ensures v.Mounted()
    ensures v.Img() == old(v.Img()).(store := Put(st, n, r, src[written..written + chunk], ptr))
  {
    ghost var data := src[written..written + chunk];
    FillSector(buf, src, written, chunk, (n - 1) * 512, 504);
    FsPtrToSector(buf, ptr);
    assert buf[..] == RegionSector(data, n, n - 1, ptr);
    StorageWrite(v, r + (n - 1), buf);
    PutLast(st, n, r, data, ptr);
  }

  // ---------------------------------------------------------------- whole files

  /** The bytes a write call takes: `size` of them, or a C string when `size` is 0. */
  function DataOf(src: seq<byte>, size: u64): (d: seq<byte>)
    requires size <= |src|
    ensures d <= src
    ensures size > 0 ==> |d| == size
    ensures size == 0 ==> 0 !in d && (0 in src ==> |d| < |src| && src[|d|] == 0)
  {
    if size == 0 then CString(src) else src[..size]
  }

  method StrLen(src: seq<byte>) returns (n: nat)
    requires 0 in src
    ensures n < |src| && CString(src) == src[..n]
  {
    n := 0;
    ghost var z :| 0 <= z < |src| && src[z] == 0;
    while src[n] != 0
      invariant n <= z && 0 !in src[..n]
      decreases z - n
    {
      assert src[..n + 1] == src[..n] + [src[n]];
      n := n + 1;
    }
    CStringIs(src, n);
  }

  /** The store and the entry after a write; an entry without regions takes no data. */
  ghost function WriteEntry(st: Store, e: Entry, data: seq<byte>): (t: (Store, Entry))
    requires e.regionSize > 0 ==> GridOk(st, e.regionSize) && InGrid(|st.bits|, e.regionSize, e.frame)
    requires |data| < U64
  {
    if e.regionSize == 0 then (st, e)
    else
      var w := WriteFrom(st, e.regionSize, e.frame, data);
      (w.store, e.(size := w.size))
  }

  /** The outer loop writes region after region; each pass leaves the same write still to be done
      with the remaining data. */
  ghost predicate Passes(st: Store, n: nat, r: nat, data: seq<byte>, t: Store, next: Option<nat>)
    requires GridOk(st, n) && InGrid(|st.bits|, n, r)
  {
    var w := WriteFrom(st, n, r, data);
    match next
    case None => t == w.store && w.size == if |data| <= Capacity(n) then |data| else Capacity(n)
    case Some(q) =>
      |data| > Capacity(n) && GridOk(t, n) && InGrid(|t.bits|, n, q)
      && w.store == WriteFrom(t, n, q, data[Capacity(n)..]).store
      && w.size == Capacity(n) + WriteFrom(t, n, q, data[Capacity(n)..]).size
  }

  lemma WritePass(st: Store, n: nat, r: nat, data: seq<byte>)
    requires GridOk(st, n) && InGrid(|st.bits|, n, r)
    ensures var chunk := if |data| <= Capacity(n) then data else data[..Capacity(n)];
      var t := AfterRegion(st, n, r, chunk, |data| > Capacity(n));
      Passes(st, n, r, data, t.0, t.1)
  {
    if |data| > Capacity(n) && Grow(st, n, r).Some? {
      PutKeepsGrid(Grow(st, n, r).value.0, n, r, data[..Capacity(n)], Grow(st, n, r).value.1);
    }
  }

  method WriteNext(v: Volume, n: nat, r: nat, src: seq<byte>, written: nat, size: nat) returns (chunk: nat, next: Option<nat>)
    requires Writable(v, n) && InGrid(4096 * v.bm, n, r) && written <= size <= |src|
    modifies v`lba
    ensures v.Mounted() && v.bm == old(v.bm) && v.Img() == old(v.Img()).(store := v.Img().store)
    ensures chunk == if size - written <= Capacity(n) then size - written else Capacity(n)
    ensures Passes(old(v.Img().store), n, r, src[written..size], v.Img().store, next)
  {
    var capacity := Capacity(n);
    chunk := size - written;
    if chunk > capacity { chunk := capacity; }
    var more := size - written > capacity;
    ghost var data := src[written..size];
    assert src[written..written + chunk] == if more then data[..capacity] else data;
    WritePass(v.Img().store, n, r, data);
    next := WriteRegion(v, n, r, src, written, chunk, more);
  }

  method WriteRegions(v: Volume, n: nat, frame: nat, src: seq<byte>, size: nat) returns (total: nat)
    requires Writable(v, n) && InGrid(4096 * v.bm, n, frame) && size <= |src|
    modifies v`lba
    ensures v.Mounted()
    ensures var w := WriteFrom(old(v.Img().store), n, frame, src[..size]);
      v.Img() == old(v.Img()).(store := w.store) && total == w.size
  {
    ghost var m, w := v.Img(), WriteFrom(v.Img().store, n, frame, src[..size]);
    var regionStart: nat, written: nat := frame, 0;
    assert src[written..size] == src[..size];
    while true
      invariant Writable(v, n) && v.bm == old(v.bm) && InGrid(4096 * v.bm, n, regionStart) && written <= size
      invariant v.Img() == m.(store := v.Img().store)
      invariant WriteFrom(v.Img().store, n, regionStart, src[written..size]).store == w.store
      invariant written + WriteFrom(v.Img().store, n, regionStart, src[written..size]).size == w.size
      decreases size - written
    {
      ghost var data := src[written..size];
      var chunk, next := WriteNext(v, n, regionStart, src, written, size);
      written := written + chunk;
      if next == None {
        return written;
      }
      regionStart := next.value;
      assert src[written..size] == data[Capacity(n)..];
    }
  }

  method FsWriteFileInside(v: Volume, src: seq<byte>, size0: u64, e: Entry) returns (e': Entry)
    requires size0 <= |src| < U64 && (size0 == 0 ==> 0 in src)
    requires e.regionSize > 0 ==> Writable(v, e.regionSize) && InGrid(4096 * v.bm, e.regionSize, e.frame)
    modifies v`lba
    ensures e.regionSize == 0 ==> v.lba == old(v.lba) && e' == e
    ensures e.regionSize > 0 ==> v.Mounted()
    ensures e.regionSize > 0 ==>
      var t := WriteEntry(old(v.Img().store), e, DataOf(src, size0));
      v.Img() == old(v.Img()).(store := t.0) && e' == t.1
  {
    if e.regionSize == 0 { return e; }
    var size: nat := size0;
    if size == 0 {
      size := StrLen(src);
    }
    var total := WriteRegions(v, e.regionSize, e.frame, src, size);
    return e.(size := total);
  }

  // ---------------------------------------------------------------- reading

  /** `now` is `was` with the bytes from `at` on replaced by `t`. */
  ghost predicate Filled(now: seq<byte>, was: seq<byte>, at: nat, t: seq<byte>) {
    |now| == |was| && at + |t| <= |was|
    && forall i :: 0 <= i < |was| ==> now[i] == if at <= i < at + |t| then t[i - at] else was[i]
  }

  lemma FilledThen(a: seq<byte>, b: seq<byte>, c: seq<byte>, at: nat, t: seq<byte>, mid: nat, u: seq<byte>, tu: seq<byte>)
    requires Filled(b, a, at, t) && Filled(c, b, mid, u) && mid == at + |t| && tu == t + u
    ensures Filled(c, a, at, tu)
  {
  }

  /** Copying one sector's payload to the output buffer. */
  method CopyOut(buf: array<byte>, payload: nat, buffer: array<byte>, out0: nat, toRead: nat) returns (out: nat)
    requires buf.Length == 512 && payload <= 512 && out0 <= toRead < buffer.Length && buf != buffer
    modifies buffer
    ensures out == out0 + Min(payload, toRead - out0)
    ensures Filled(buffer[..], old(buffer[..]), out0, buf[..out - out0])
  {
    out := out0;
    var k := 0;
    while k < payload && out < toRead
      invariant k <= payload && out == out0 + k <= toRead
      invariant forall i :: 0 <= i < buffer.Length ==> buffer[i] == if out0 <= i < out then buf[i - out0] else old(buffer[i])
    {
      buffer[out] := buf[k];
      out := out + 1;
      k := k + 1;
    }
  }

  lemma SectorBytes(st: Store, n: nat, r: nat, j: nat, len: nat)
    requires j < n && r + n <= |st.sectors| && len <= (if j == n - 1 then 504 else 512)
    ensures j * 512 + len <= Capacity(n)
    ensures RegionBytes(st, n, r)[..j * 512] + st.sectors[r + j][..len] == RegionBytes(st, n, r)[..j * 512 + len]
  {
    var a, b := RegionBytes(st, n, r)[..j * 512] + st.sectors[r + j][..len], RegionBytes(st, n, r)[..j * 512 + len];
    forall i | 0 <= i < j * 512 + len
      ensures a[i] == b[i]
    {
      if i >= j * 512 {
        assert i / 512 == j && i % 512 == i - j * 512;
      }
    }
  }

  /** The storage area on disk is `st.sectors`. */
  ghost predicate Stores(v: Volume, st: Store)
    reads v
  {
    v.startStorage <= |v.lba| && v.lba[v.startStorage..] == st.sectors
  }

  method ReadSector(v: Volume, n: nat, r: nat, j: nat, buf: array<byte>, buffer: array<byte>, out0: nat, toRead: nat,
                    ghost st: Store)
      returns (out: nat, next: u64)
    requires Stores(v, st) && j < n && r + n <= |st.sectors|
    requires buf.Length == 512 && buf != buffer && out0 <= toRead < buffer.Length
    modifies buf, buffer
    ensures out == out0 + Min(if j == n - 1 then 504 else 512, toRead - out0)
    ensures Filled(buffer[..], old(buffer[..]), out0, st.sectors[r + j][..out - out0])
    ensures j == n - 1 ==> next == Next(st, n, r)
  {
    StorageRead(v, r + j, buf);
    var payload := if j == n - 1 then 504 else 512;
    next := 0;
    if j == n - 1 {
      next := FsPtrFromSector(buf);
    }
    out := CopyOut(buf, payload, buffer, out0, toRead);
  }

  /** The sectors of one region, until enough has been read. */
  method ReadRegion(v: Volume, n: nat, r: nat, buffer: array<byte>, out0: nat, toRead: nat, ghost st: Store)
      returns (out: nat, next: u64)
    requires Stores(v, st) && n > 0 && r + n <= |st.sectors|
    requires out0 < toRead < buffer.Length
    modifies buffer
    ensures out == out0 + Min(Capacity(n), toRead - out0)
    ensures Filled(buffer[..], old(buffer[..]), out0, RegionBytes(st, n, r)[..out - out0])
    ensures out < toRead ==> next == Next(st, n, r)
  {
    ghost var was := buffer[..];
    ghost var all := RegionBytes(st, n, r);
    var buf := new byte[512];
    next := 0;
    out := out0;
    var j := 0;
    while j < n && out < toRead
      invariant j <= n && out0 <= out <= toRead && out - out0 <= Capacity(n)
      invariant out < toRead ==> out - out0 == if j == n then Capacity(n) else j * 512
      invariant Filled(buffer[..], was, out0, all[..out - out0])
      invariant j == n && out < toRead ==> next == Next(st, n, r)
    {
      ghost var mid, before := out, buffer[..];
      out, next := ReadSector(v, n, r, j, buf, buffer, out, toRead, st);
      SectorBytes(st, n, r, j, out - mid);
      FilledThen(was, before, buffer[..], out0, all[..mid - out0], mid, st.sectors[r + j][..out - mid], all[..out - out0]);
      j := j + 1;
    }
  }

  /** After `out` bytes of `bytes`, what remains is what region `r` and its successors hold. */
  ghost predicate Partly(st: Store, n: nat, r: nat, bytes: seq<byte>, out: nat, toRead: nat)
    requires GridOk(st, n)
  {
    InGrid(|st.bits|, n, r) && out <= toRead && out <= |bytes|
    && bytes == bytes[..out] + ReadFrom(st, n, r, toRead - out)
  }

  lemma ReadStep(st: Store, n: nat, r: nat, bytes: seq<byte>, mid: nat, toRead: nat)
    requires GridOk(st, n) && Partly(st, n, r, bytes, mid, toRead) && mid < toRead
    ensures var got, next := RegionBytes(st, n, r)[..Min(Capacity(n), toRead - mid)], Next(st, n, r);
      var out := mid + |got|;
      && out <= |bytes|
      && (out == toRead || IsEnd(next) ==> out == |bytes|)
      && (out < toRead && !IsEnd(next) ==> Partly(st, n, next, bytes, out, toRead))
      && bytes[..out] == bytes[..mid] + got
  {
    var got, next := RegionBytes(st, n, r)[..Min(Capacity(n), toRead - mid)], Next(st, n, r);
    var out := mid + |got|;
    var rest := ReadFrom(st, n, r, toRead - mid);
    if out == toRead || IsEnd(next) {
      assert rest == got;
      assert bytes[..out] == bytes;
    } else {
      Regroup(bytes, bytes[..mid], got, ReadFrom(st, n, next, toRead - out));
    }
    assert bytes[..out] == bytes[..mid] + got;
  }

  lemma Regroup(s: seq<byte>, a: seq<byte>, b: seq<byte>, c: seq<byte>)
    requires s == a + (b + c)
    ensures s[..|a| + |b|] == a + b && s == s[..|a| + |b|] + c
  {
  }

  /** The regions of a file, until enough has been read or the chain ends. */
  method ReadRegions(v: Volume, n: nat, frame: nat, buffer: array<byte>, toRead: nat, ghost st: Store) returns (out: nat)
    requires Stores(v, st) && GridOk(st, n) && InGrid(|st.bits|, n, frame)
    requires toRead < buffer.Length
    modifies buffer
    ensures out == |ReadFrom(st, n, frame, toRead)|
    ensures Filled(buffer[..], old(buffer[..]), 0, ReadFrom(st, n, frame, toRead))
  {
    ghost var was := buffer[..];
    ghost var bytes := ReadFrom(st, n, frame, toRead);
    var regionStart: nat := frame;
    out := 0;
    PartlyBegun(st, n, frame, toRead);
    while out < toRead
      invariant Partly(st, n, regionStart, bytes, out, toRead)
      invariant Filled(buffer[..], was, 0, bytes[..out])
    {
      ghost var mid, before := out, buffer[..];
      ReadStep(st, n, regionStart, bytes, mid, toRead);
      var next;
      out, next := ReadRegion(v, n, regionStart, buffer, out, toRead, st);
      FilledThen(was, before, buffer[..], 0, bytes[..mid], mid, RegionBytes(st, n, regionStart)[..out - mid], bytes[..out]);
      if out >= toRead || next == 0 || next == NOT_FOUND {
        assert bytes[..out] == bytes;
        return;
      }
      regionStart := next;
    }
    PartlyDone(st, n, regionStart, bytes, out);
  }

  lemma PartlyBegun(st: Store, n: nat, frame: nat, toRead: nat)
    requires GridOk(st, n) && InGrid(|st.bits|, n, frame)
    ensures Partly(st, n, frame, ReadFrom(st, n, frame, toRead), 0, toRead)
  {
  }

  lemma PartlyDone(st: Store, n: nat, r: nat, bytes: seq<byte>, out: nat)
    requires GridOk(st, n) && Partly(st, n, r, bytes, out, out)
    ensures out == |bytes| && bytes[..out] == bytes
  {
  }

  /** A read takes one byte less than its limit, for the NUL; a limit of 0 means 1024. */
  function ReadLimit(maxSize: u64): nat {
    if maxSize == 0 then 1023 else maxSize - 1
  }

  /** A read returns what its chain holds, up to the size in the entry and one less than the limit,
      followed by a NUL; the rest of the buffer is left alone. */
  method FsReadFileInside(v: Volume, buffer: array<byte>, maxSize: u64, e: Entry)
    requires v.Mounted()
    requires e.regionSize > 0 ==> GridOk(v.Img().store, e.regionSize) && InGrid(4096 * v.bm, e.regionSize, e.frame)
    requires e.regionSize > 0 ==> buffer.Length > Min(e.size, ReadLimit(maxSize))
    modifies buffer
    ensures e.regionSize == 0 ==> buffer[..] == old(buffer[..])
    ensures e.regionSize > 0 ==>
      var bytes := ReadFrom(v.Img().store, e.regionSize, e.frame, Min(e.size, ReadLimit(maxSize)));
      Filled(buffer[..], old(buffer[..]), 0, bytes + [0])
  {
    var n := e.regionSize;
    var limit := if maxSize == 0 then 1024 else maxSize;
    if n == 0 || limit == 0 { return; }
    var toRead: nat := e.size;
    if toRead > limit - 1 { toRead := limit - 1; }
    ghost var was, bytes := buffer[..], ReadFrom(v.Img().store, n, e.frame, toRead);
    var out := ReadRegions(v, n, e.frame, buffer, toRead, v.Img().store);
    ghost var before := buffer[..];
    buffer[out] := 0;
    FilledThen(was, before, buffer[..], 0, bytes, out, [0], bytes + [0]);
  }

  // ---------------------------------------------------------------- freeing

  /** The store after a removal has freed the entry's regions. */
  ghost function FreeEntry(st: Store, e: Entry): (t: Store)
    requires e.regionSize > 0 ==> GridOk(st, e.regionSize) && InGrid(|st.bits|, e.regionSize, e.frame)
  {
    if e.regionSize == 0 then st
    else st.(bits := FreeFrom(st, e.regionSize, e.frame, FreeCount(e.size, e.regionSize), st.bits))
  }

  method FreeFileRegions(v: Volume, e: Entry)
    requires v.Mounted()
    requires e.regionSize > 0 ==> GridOk(v.Img().store, e.regionSize) && InGrid(4096 * v.bm, e.regionSize, e.frame)
    modifies v`lba
    ensures v.Mounted()
    ensures v.Img() == old(v.Img()).(store := FreeEntry(old(v.Img().store), e))
  {
    var n := e.regionSize;
    if n == 0 { return; }
    var regionsNum := CountRegions(e.size, n);
    FreeRegions(v, n, e.frame, regionsNum, v.Img());
  }

  method CountRegions(size: u64, n: nat) returns (regionsNum: nat)
    requires n > 0
    ensures regionsNum == FreeCount(size, n)
  {
    var framesNum := Add64(size, 7) / 8;
    regionsNum := framesNum * 8 / n;
    if regionsNum == 0 { regionsNum := 1; }
  }

  /** One pass: the pointer is read before the region's bits are cleared. */
  method FreeRegion(v: Volume, n: nat, r: nat, last: bool, ghost m: Image, ghost bits: seq<bool>) returns (next: u64)
    requires v.Mounted() && v.Img() == m.(store := m.store.(bits := bits))
    requires n > 0 && r + n <= 4096 * v.bm
    modifies v`lba
    ensures v.Mounted()
    ensures |bits| == 4096 * v.bm && v.Img() == m.(store := m.store.(bits := Mark(bits, r, n, false)))
    ensures r + n <= |m.store.sectors| && next == if last then NOT_FOUND else Next(m.store, n, r)
  {
    next := NOT_FOUND;
    if !last {
      var buf := new byte[512];
      StorageRead(v, r + n - 1, buf);
      next := FsPtrFromSector(buf);
    }
    Bitmap.ClearRegion(v, r, n);
  }

  lemma FreeStep(st: Store, n: nat, r: nat, count: nat, bits: seq<bool>)
    requires GridOk(st, n) && InGrid(|st.bits|, n, r) && count > 0
    ensures var next, bits1 := Next(st, n, r), Mark(bits, r, n, false);
      if count == 1 || IsEnd(next) then FreeFrom(st, n, r, count, bits) == bits1
      else InGrid(|st.bits|, n, next) && FreeFrom(st, n, r, count, bits) == FreeFrom(st, n, next, count - 1, bits1)
  {
  }

  /** With `left` regions from `r` on still to be freed, the bitmap will become `goal`. */
  ghost predicate Freeing(v: Volume, m: Image, n: nat, r: nat, left: nat, goal: seq<bool>)
    reads v
    requires GridOk(m.store, n)
  {
    v.Mounted() && InGrid(|m.store.bits|, n, r) && left > 0
    && v.Img() == m.(store := m.store.(bits := v.Img().store.bits)) && |m.store.bits| == 4096 * v.bm
    && FreeFrom(m.store, n, r, left, v.Img().store.bits) == goal
  }

  method FreePass(v: Volume, n: nat, r: nat, left: nat, ghost m: Image, ghost goal: seq<bool>) returns (next: u64)
    requires GridOk(m.store, n) && Freeing(v, m, n, r, left, goal)
    modifies v`lba
    ensures IsEnd(next) ==> v.Mounted() && v.Img() == m.(store := m.store.(bits := goal))
    ensures !IsEnd(next) ==> left > 1 && Freeing(v, m, n, next, left - 1, goal)
  {
    ghost var bits := v.Img().store.bits;
    FreeStep(m.store, n, r, left, bits);
    next := FreeRegion(v, n, r, left <= 1, m, bits);
  }

  method FreeRegions(v: Volume, n: nat, frame: nat, regionsNum: nat, ghost m: Image)
    requires v.Mounted() && v.Img() == m
    requires GridOk(m.store, n) && InGrid(|m.store.bits|, n, frame) && regionsNum > 0
    modifies v`lba
    ensures v.Mounted()
    ensures v.Img() == m.(store := m.store.(bits := FreeFrom(m.store, n, frame, regionsNum, m.store.bits)))
  {
    ghost var goal := FreeFrom(m.store, n, frame, regionsNum, m.store.bits);
    var regionStart: nat, r := frame, 0;
    while r < regionsNum
      invariant r < regionsNum && Freeing(v, m, n, regionStart, regionsNum - r, goal)
    {
      var nextRegion := FreePass(v, n, regionStart, regionsNum - r, m, goal);
      if nextRegion == NOT_FOUND || nextRegion == 0 {
        return;
      }
      regionStart := nextRegion;
      r := r + 1;
    }
  }
}
