/** Writing a caller's buffer to a file and reading the file into another. */
module RoundTrips {
  import opened Bytes
  import opened Regions
  import opened Chains
  import opened Entries
  import opened Disk
  import opened FileData
  import opened Names
  import opened PathNames
  import opened FileSystem
  import opened Separation
  import PathCalls
  import Order
  import Transfers
  import opened Calls

  /** `d` is what a caller means by `src` and `size`: the first `size` bytes, or for size 0 the characters before the
      first NUL. */
  ghost predicate Meant(src: seq<byte>, size: u64, d: seq<byte>) {
    if size > 0 then size <= |src| && d == src[..size] else 0 !in d && d + [0] <= src
  }

  lemma MeantIsData(src: seq<byte>, size: u64, d: seq<byte>)
    requires size <= |src| && Meant(src, size, d)
    ensures DataOf(src, size) == d && (size == 0 ==> 0 in src)
  {
    if size == 0 {
      assert src[..|d| + 1] == d + [0] && src[|d|] == 0;
      CStringIs(src, |d|);
    }
  }

  /** How much a read returns of a file of `size` bytes after `meant` bytes were written to it: no more than the old
      chain held, when region 0 was free and the chain had to grow, and no more than the limit, which is 1023 bytes
      when the caller gives none. */
  function ReadCount(zeroTaken: bool, oldRoom: nat, meant: nat, size: nat, maxSize: u64): nat {
    Min(if zeroTaken || meant <= oldRoom then size else Min(size, oldRoom), if maxSize == 0 then 1023 else maxSize - 1)
  }

  /** After a write through the call's arguments a read returns the bytes meant, as far as they are recorded, readable
      and below the limit. */
  lemma WriteReadCalls(m: Image, cs: seq<seq<nat>>, path: seq<byte>, cur: u64, k: nat, src: seq<byte>, size: u64,
                       maxSize: u64, d: seq<byte>)
    requires SepOk(m, cs) && FileSlot(m.table, IdOf(m.table, path, cur)) == Some(k)
    requires size <= |src| && |src| + 7 < U64 && Meant(src, size, d)
    ensures var (m', r) := WriteFile(m, path, DataOf(src, size), cur);
      && r == 0 && ImageOk(m') && IsFile(m'.table[k])
      && m'.table[k].size <= |d|
      && (m'.table[k].size < |d| ==> FirstFit(m'.store.bits, REGION) == None)
      && var n := ReadCount(m.store.bits[0], Room(REGION, |cs[k]|), |d|, m'.table[k].size, maxSize);
         n <= |d| && ReadBytes(m', path, cur, ReadLimit(maxSize)) == Some(d[..n])
  {
    hide IdOf, WriteById, Contents, GridOk, IdsOk, FirstFit, Room, DataOf, Meant, Chained, FreeEnds;
    MeantIsData(src, size, d);
    Transfers.WriteThenRead(m, cs, k, d, ReadLimit(maxSize));
    Transfers.WriteKeepsPath(m, path, cur, d);
  }

  lemma WriteKeepsUsable(m: Image, path: seq<byte>, data: seq<byte>, cur: u64)
    requires ImageOk(m) && |data| + 7 < U64 && Usable(m, path, cur)
    ensures ImageOk(WriteFile(m, path, data, cur).0) && Usable(WriteFile(m, path, data, cur).0, path, cur)
  {
    WriteKeepsOk(m, IdOf(m.table, path, cur), data);
    Order.WriteSameTree(m, IdOf(m.table, path, cur), data);
    hide WriteById, IdOf, ImageOk, NamesTo;
    var t, t' := m.table, WriteFile(m, path, data, cur).0.table;
    assert IdsOk(t) && IdsOk(t') by { Both(m, WriteFile(m, path, data, cur).0); }
    SameNames(t, t', cur);
  }

  lemma Both(m: Image, m': Image)
    requires ImageOk(m) && ImageOk(m')
    ensures IdsOk(m.table) && IdsOk(m'.table)
  {
  }

  /** The two calls one after the other. */
  method StoreAndLoad(v: Volume, s: PathCalls.Scratch, path: seq<byte>, src: seq<byte>, size: u64, buffer: array<byte>,
                      maxSize: u64, cur: u64, ghost cs: seq<seq<nat>>, ghost k: nat, ghost d: seq<byte>)
      returns (w: int, r: int)
    requires Ready(v) && s.Idle() && Usable(v.Img(), path, cur) && buffer != s.absRes && buffer.Length > ReadLimit(maxSize)
    requires SepOk(v.Img(), cs) && FileSlot(v.Img().table, IdOf(v.Img().table, path, cur)) == Some(k)
    requires size <= |src| && |src| + 7 < U64 && Meant(src, size, d)
    modifies v`lba, s`point, s`firstOne, s.rows, s.absRes, buffer
    ensures w == 0 && r == 0 && Ready(v)
    ensures var n := ReadCount(old(v.Img()).store.bits[0], Room(REGION, |cs[k]|), |d|, v.Img().table[k].size, maxSize);
      n <= |d| && buffer[..n] == d[..n] && buffer[n] == 0
  {
    hide SepOk, Usable, ImageOf, WriteFile, ReadBytes, IdOf, Filled, Room, FileSlot, ImageOk, ReadCount, Meant, DataOf,
      RoomFor;
    ghost var m := v.Img();
    MeantIsData(src, size, d);
    WriteReadCalls(m, cs, path, cur, k, src, size, maxSize, d);
    WriteKeepsUsable(m, path, d, cur);
    w := FsWriteFile(v, s, path, src, size, cur);
    RoomForAny(buffer.Length, v.Img(), path, cur, ReadLimit(maxSize));
    ghost var was := buffer[..];
    r := FsReadFile(v, s, path, buffer, maxSize, cur);
    FilledIs(buffer[..], was, ReadBytes(v.Img(), path, cur, ReadLimit(maxSize)).value);
  }

  lemma FilledIs(now: seq<byte>, was: seq<byte>, bytes: seq<byte>)
    requires Filled(now, was, 0, bytes + [0])
    ensures |bytes| < |now| && now[..|bytes|] == bytes && now[|bytes|] == 0
  {
  }
}
