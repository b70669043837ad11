/** The entry table: scans over its 1024 slots, adding and erasing entries, and the last-id word. */
module Table {
  import opened Bytes
  import opened Entries
  import opened Disk

  // ---------------------------------------------------------------- the table as a sequence

  /** The first slot from `k` on whose id is `id`; a free slot is one with id 0. */
  function SlotWith(t: seq<Entry>, id: u64, k: nat := 0): (s: Option<nat>)
    requires k <= |t|
    ensures s.Some? ==> k <= s.value < |t| && t[s.value].id == id
    ensures forall j :: k <= j < (if s.Some? then s.value else |t|) ==> t[j].id != id
    decreases |t| - k
  {
    if k == |t| then None else if t[k].id == id then Some(k) else SlotWith(t, id, k + 1)
  }

  lemma FirstWith(t: seq<Entry>, id: u64, k: nat)
    requires k < |t| && t[k].id == id && forall j :: 0 <= j < k ==> t[j].id != id
    ensures SlotWith(t, id) == Some(k)
  {
  }

  /** `fs_strcmp(e.name, word, 24) != 0`: equal up to the first 24 characters. */
  predicate NameIs(e: Entry, word: seq<byte>) {
    CString(e.name) == word[..Min(|word|, 24)]
  }

  predicate Matches(e: Entry, word: seq<byte>, parent: u64) {
    NameIs(e, word) && e.parent == parent
  }

  /** The first slot from `k` on with this name and parent. */
  function SlotNamed(t: seq<Entry>, word: seq<byte>, parent: u64, k: nat := 0): (s: Option<nat>)
    requires k <= |t|
    ensures s.Some? ==> k <= s.value < |t| && Matches(t[s.value], word, parent)
    ensures forall j :: k <= j < (if s.Some? then s.value else |t|) ==> !Matches(t[j], word, parent)
    decreases |t| - k
  {
    if k == |t| then None
    else if Matches(t[k], word, parent) then Some(k) else SlotNamed(t, word, parent, k + 1)
  }

  lemma FirstMatch(t: seq<Entry>, w: seq<byte>, parent: u64, k: nat)
    requires k < |t| && Matches(t[k], w, parent)
    requires forall j :: 0 <= j < k ==> !Matches(t[j], w, parent)
    ensures SlotNamed(t, w, parent) == Some(k)
  {
  }

  /** The id of the first entry with this name and parent. */
  function Lookup(t: seq<Entry>, word: seq<byte>, parent: u64): (id: u64) {
    match SlotNamed(t, word, parent)
    case None => NOT_FOUND
    case Some(k) => t[k].id
  }

  /** The largest id among the first `k` slots. */
  function MaxId(t: seq<Entry>, k: nat): (m: u64)
    requires k <= |t|
  {
    if k == 0 then 0
    else if t[k - 1].id > MaxId(t, k - 1) then t[k - 1].id else MaxId(t, k - 1)
  }

  lemma {:induction false} MaxIdIs(t: seq<Entry>, k: nat)
    requires k <= |t|
    ensures forall j :: 0 <= j < k ==> t[j].id <= MaxId(t, k)
    ensures MaxId(t, k) == 0 || exists j :: 0 <= j < k && t[j].id == MaxId(t, k)
  {
    if k > 0 {
      MaxIdIs(t, k - 1);
      assert t[k - 1].id == MaxId(t, k) || MaxId(t, k) == MaxId(t, k - 1);
    }
  }

  ghost predicate HasChildren(t: seq<Entry>, id: u64) {
    exists k :: 0 <= k < |t| && t[k].id != 0 && t[k].parent == id
  }

  // ---------------------------------------------------------------- reading the table

  ghost predicate HasTable(v: Volume, t: seq<Entry>)
    reads v
  {
    v.bm + 130 <= |v.lba| && v.startTable == v.bm + 2 && |t| == TABLE_ENTRIES
    && forall k {:trigger EntryAt(v.lba, v.bm, k)} :: 0 <= k < TABLE_ENTRIES ==> t[k] == EntryAt(v.lba, v.bm, k)
  }

  /** Entry `slot` of table sector `i`, copied out of the sector buffer byte by byte. */
  method CopyEntry(v: Volume, buf: array<byte>, i: nat, slot: nat, ghost t: seq<Entry>) returns (e: Entry)
    requires HasTable(v, t) && i < TABLE_SECTORS && slot < 8
    requires buf.Length == 512 && buf[..] == v.lba[v.startTable + i]
    ensures e == t[8 * i + slot]
  {
    var raw := new byte[64];
    for i2 := 0 to 64
      invariant raw[..i2] == buf[64 * slot..64 * slot + i2]
      invariant buf[..] == v.lba[v.startTable + i]
    {
      raw[i2] := buf[slot * 64 + i2];
    }
    assert raw[..] == raw[..64] == SlotOf(buf[..], slot);
    assert (8 * i + slot) / 8 == i && (8 * i + slot) % 8 == slot;
    e := Decode(raw[..]);
    assert e == EntryAt(v.lba, v.bm, 8 * i + slot);
  }

  method FsStrcmp(rdi: seq<byte>, rsi: seq<byte>) returns (r: int)
    requires |rdi| == 24 && 0 !in rsi
    ensures r != 0 <==> CString(rdi) == rsi[..Min(|rsi|, 24)]
  {
    for i := 0 to 24
      invariant i <= |rsi| && rdi[..i] == rsi[..i]
    {
      var rdiChar := rdi[i];
      var rsiChar := if i < |rsi| then rsi[i] else 0;
      if rdiChar == 0 && rsiChar == 0 {
        assert i == |rsi|;
        CStringIs(rdi, i);
        return 2;
      }
      if rdiChar != rsiChar {
        StringsDiffer(rdi, rsi, i);
        return 0;
      }
    }
    CStringIs(rdi, 24);
    return 1;
  }

  lemma StringsDiffer(rdi: seq<byte>, rsi: seq<byte>, i: nat)
    requires i < |rdi| == 24 && i <= |rsi| && 0 !in rsi && rdi[..i] == rsi[..i]
    requires rdi[i] != if i < |rsi| then rsi[i] else 0
    ensures CString(rdi) != rsi[..Min(|rsi|, 24)]
  {
    var c, w := CString(rdi), rsi[..Min(|rsi|, 24)];
    assert i < |c| ==> c[i] == rdi[i];
    assert i < |w| ==> w[i] == rsi[i];
  }

  method EntryMatches(e: Entry, name: seq<byte>, parent: u64) returns (r: bool)
    requires 0 !in name
    ensures r == Matches(e, name, parent)
  {
    var stat2 := FsStrcmp(e.name, name);
    return stat2 != 0 && e.parent == parent;
  }

  method NameAndParentIdToId(v: Volume, name: seq<byte>, parent: u64, ghost t: seq<Entry>) returns (id: u64)
    requires HasTable(v, t) && 0 !in name
    ensures id == Lookup(t, name, parent)
  {
    var buf := new byte[512];
    for i := 0 to TABLE_SECTORS
      invariant HasTable(v, t)
      invariant forall j :: 0 <= j < 8 * i ==> !Matches(t[j], name, parent)
    {
      var stat := v.AtaRead(v.startTable + i, buf);
      for slot := 0 to 8
        invariant HasTable(v, t) && buf[..] == v.lba[v.startTable + i]
        invariant forall j :: 0 <= j < 8 * i + slot ==> !Matches(t[j], name, parent)
      {
        var e := CopyEntry(v, buf, i, slot, t);
        var hit := EntryMatches(e, name, parent);
        if hit {
          FirstMatch(t, name, parent, 8 * i + slot);
          return e.id;
        }
      }
    }
    return NOT_FOUND;
  }

  /** `find_entry_by_id`: the first slot with this id, and its contents; ids 0 and 2^64-1 are refused. */
  method FindEntryById(v: Volume, id: u64, ghost t: seq<Entry>) returns (stat: int, e: Entry, sector: nat, slot: nat)
    requires HasTable(v, t)
    ensures stat == 0 <==> id != 0 && id != NOT_FOUND && SlotWith(t, id).Some?
    ensures stat == 0 ==> sector < TABLE_SECTORS && slot < 8
    ensures stat == 0 ==> SlotWith(t, id) == Some(8 * sector + slot) && e == t[8 * sector + slot]
  {
    stat, e, sector, slot := 1, FreeSlot(), 0, 0;
    if id == 0 || id == NOT_FOUND { return; }
    var buf := new byte[512];
    for i := 0 to TABLE_SECTORS
      invariant HasTable(v, t) && stat == 1
      invariant forall k :: 0 <= k < 8 * i ==> t[k].id != id
    {
      var r := v.AtaRead(v.startTable + i, buf);
      for j := 0 to 8
        invariant HasTable(v, t) && buf[..] == v.lba[v.startTable + i] && stat == 1
        invariant forall k :: 0 <= k < 8 * i + j ==> t[k].id != id
      {
        e := CopyEntry(v, buf, i, j, t);
        if e.id == id {
          FirstWith(t, id, 8 * i + j);
          return 0, e, i, j;
        }
      }
    }
  }

  method DirHasChildren(v: Volume, id: u64, ghost t: seq<Entry>) returns (r: bool)
    requires HasTable(v, t)
    ensures r <==> HasChildren(t, id)
  {
    var buf := new byte[512];
    for i := 0 to TABLE_SECTORS
      invariant HasTable(v, t)
      invariant forall k :: 0 <= k < 8 * i ==> t[k].id == 0 || t[k].parent != id
    {
      var stat := v.AtaRead(v.startTable + i, buf);
      for slot := 0 to 8
        invariant HasTable(v, t) && buf[..] == v.lba[v.startTable + i]
        invariant forall k :: 0 <= k < 8 * i + slot ==> t[k].id == 0 || t[k].parent != id
      {
        var e := CopyEntry(v, buf, i, slot, t);
        if e.id != 0 && e.parent == id {
          return true;
        }
      }
    }
    return false;
  }

  method ReadFromFsTableLastId(v: Volume, ghost t: seq<Entry>) returns (res: u64)
    requires HasTable(v, t)
    ensures res == MaxId(t, |t|)
  {
    res := 0;
    var buf := new byte[512];
    for i := 0 to TABLE_SECTORS
      invariant HasTable(v, t)
      invariant res == MaxId(t, 8 * i)
    {
      var stat := v.AtaRead(v.startTable + i, buf);
      for slot := 0 to 8
        invariant HasTable(v, t) && buf[..] == v.lba[v.startTable + i]
        invariant res == MaxId(t, 8 * i + slot)
      {
        var e := CopyEntry(v, buf, i, slot, t);
        if e.id > res {
          res := e.id;
        }
      }
    }
  }

  // ---------------------------------------------------------------- changing the table

  /** Overwriting slot `k` of a sector buffer with 64 bytes. */
  method PutSlot(buf: array<byte>, slot: nat, raw: Slot)
    requires buf.Length == 512 && slot < 8
    modifies buf
    ensures SlotOf(buf[..], slot) == raw
    ensures forall j :: 0 <= j < 8 && j != slot ==> SlotOf(buf[..], j) == SlotOf(old(buf[..]), j)
  {
    ghost var was := buf[..];
    for i2 := 0 to 64
      invariant forall p :: 0 <= p < 512 ==>
        buf[p] == if 64 * slot <= p < 64 * slot + i2 then raw[p - 64 * slot] else was[p]
    {
      buf[slot * 64 + i2] := raw[i2];
    }
    assert SlotOf(buf[..], slot) == raw;
    forall j | 0 <= j < 8 && j != slot
      ensures SlotOf(buf[..], j) == SlotOf(was, j)
    {
    }
  }

  /** Replacing one entry on disk. */
  method StoreEntry(v: Volume, buf: array<byte>, i: nat, slot: nat, raw: Slot, ghost e: Entry)
    requires v.Mounted() && i < TABLE_SECTORS && slot < 8 && raw == Encode(e)
    requires buf.Length == 512 && buf[..] == v.lba[v.startTable + i]
    modifies v`lba, buf
    ensures v.Mounted()
    ensures v.Img() == old(v.Img().(table := v.Img().table[8 * i + slot := e]))
  {
    assert (8 * i + slot) / 8 == i && (8 * i + slot) % 8 == slot;
    PutSlot(buf, slot, raw);
    EntryWritten(v.lba, v.bm, 8 * i + slot, buf[..], e);
    var stat := v.AtaWrite(v.startTable + i, buf);
  }

  /** The table with `e` in its first free slot; a full table is left alone. */
  function AddEntry(t: seq<Entry>, e: Entry): (t': seq<Entry>)
    ensures |t'| == |t|
  {
    match SlotWith(t, 0)
    case None => t
    case Some(k) => t[k := e]
  }

  /** Scanning for the first free slot; `buf` holds its sector when there is one. */
  method FindFreeSlot(v: Volume, buf: array<byte>, ghost t: seq<Entry>) returns (found: bool, i: nat, slot: nat)
    requires HasTable(v, t) && buf.Length == 512
    modifies buf
    ensures found <==> SlotWith(t, 0).Some?
    ensures found ==> i < TABLE_SECTORS && slot < 8 && buf[..] == v.lba[v.startTable + i]
    ensures found ==> SlotWith(t, 0) == Some(8 * i + slot)
  {
    i, slot := 0, 0;
    while i < TABLE_SECTORS
      invariant i <= TABLE_SECTORS
      invariant forall k :: 0 <= k < 8 * i ==> t[k].id != 0
    {
      var stat := v.AtaRead(v.startTable + i, buf);
      slot := 0;
      while slot < 8
        invariant slot <= 8 && buf[..] == v.lba[v.startTable + i]
        invariant forall k :: 0 <= k < 8 * i + slot ==> t[k].id != 0
      {
        var check := CopyEntry(v, buf, i, slot, t);
        if check.id == 0 {
          FirstWith(t, 0, 8 * i + slot);
          return true, i, slot;
        }
        slot := slot + 1;
      }
      i := i + 1;
    }
    return false, i, slot;
  }

  method WriteEntryToTable(v: Volume, e: Entry) returns (r: int)
    requires v.Mounted()
    modifies v`lba
    ensures v.Mounted()
    ensures v.Img() == old(v.Img().(table := AddEntry(v.Img().table, e)))
    ensures r == 0 <==> SlotWith(old(v.Img().table), 0).Some?
  {
    ghost var t := v.Img().table;
    var buf := new byte[512];
    var found, i, slot := FindFreeSlot(v, buf, t);
    if !found { return -1; }
    StoreEntry(v, buf, i, slot, Encode(e), e);
    return 0;
  }

  method EraseTableEntry(v: Volume, sector: nat, slot: nat)
    requires v.Mounted() && sector < TABLE_SECTORS && slot < 8
    modifies v`lba
    ensures v.Mounted()
    ensures v.Img() == old(v.Img().(table := v.Img().table[8 * sector + slot := FreeSlot()]))
  {
    var buf := new byte[512];
    var stat := v.AtaRead(v.startTable + sector, buf);
    var zeros: Slot := seq(64, i => 0);
    EncodeDecode(zeros);
    DecodeZero(zeros);
    StoreEntry(v, buf, sector, slot, zeros, FreeSlot());
  }

  // ---------------------------------------------------------------- the last id

  method ReadLastIdFromDisk(v: Volume) returns (id: u64)
    requires v.Mounted()
    ensures id == v.Img().lastId
  {
    var buf := new byte[512];
    var stat := v.AtaRead(v.startTable - 1, buf);
    ghost var t := buf[..8];
    assert LeValue(t[8..]) == 0;
    assert LeValue(t[7..]) == t[7] + 256 * LeValue(t[8..]);
    assert LeValue(t[6..]) == t[6] + 256 * LeValue(t[7..]);
    assert LeValue(t[5..]) == t[5] + 256 * LeValue(t[6..]);
    assert LeValue(t[4..]) == t[4] + 256 * LeValue(t[5..]);
    assert LeValue(t[3..]) == t[3] + 256 * LeValue(t[4..]);
    assert LeValue(t[2..]) == t[2] + 256 * LeValue(t[3..]);
    assert LeValue(t[1..]) == t[1] + 256 * LeValue(t[2..]);
    assert t == t[0..];
    id := buf[7] as int * 0x100_0000_0000_0000 + buf[6] as int * 0x1_0000_0000_0000
        + buf[5] as int * 0x100_0000_0000 + buf[4] as int * 0x1_0000_0000
        + buf[3] as int * 0x100_0000 + buf[2] as int * 0x1_0000
        + buf[1] as int * 0x100 + buf[0] as int;
  }

  method PutWord(buf: array<byte>, num: u64)
    requires buf.Length == 512
    modifies buf
    ensures IdWord(buf[..]) == num
  {
    for i := 0 to 8
      invariant buf[..i] == LeBytes(num, 8)[..i]
    {
      LeByteAt(num, 8, i);
      buf[i] := num / Pow256(i) % 256;
      assert buf[..i + 1] == buf[..i] + [buf[i]];
      assert LeBytes(num, 8)[..i + 1] == LeBytes(num, 8)[..i] + [LeBytes(num, 8)[i]];
    }
    assert buf[..][..8] == LeBytes(num, 8);
    Pow256Eight();
    LeValueOfBytes(num, 8);
  }

  /** The last id is recomputed from the table; the other 504 bytes of its sector are whatever the
      stack buffer held. */
  method ReloadLastIdToDisk(v: Volume)
    requires v.bm + 130 <= |v.lba| && v.startTable == v.bm + 2
    modifies v`lba
    ensures |v.lba| == |old(v.lba)|
    ensures forall i :: 0 <= i < |v.lba| && i != v.bm + 1 ==> v.lba[i] == old(v.lba[i])
    ensures IdWord(v.lba[v.bm + 1]) == MaxId(TableOf(old(v.lba), v.bm), TABLE_ENTRIES)
    ensures old(v.Mounted()) ==>
      v.Mounted() && v.Img() == old(v.Img().(lastId := MaxId(v.Img().table, TABLE_ENTRIES)))
  {
    hide TableOf, MaxId, IdWord;
    var buf := new byte[512];
    ghost var t := TableOf(v.lba, v.bm);
    var num := ReadFromFsTableLastId(v, t);
    PutWord(buf, num);
    if v.Mounted() {
      LastIdWritten(v.lba, v.bm, buf[..]);
    }
    var stat := v.AtaWrite(v.startTable - 1, buf);
  }
}
