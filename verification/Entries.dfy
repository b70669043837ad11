/** Entries of the file table: 64 bytes each, laid out as the packed C struct. */
module Entries {
  import opened Bytes

  type Name = s: seq<byte> | |s| == 24 witness seq(24, i => 0)
  type Slot = s: seq<byte> | |s| == 64 witness seq(64, i => 0)

  datatype Entry = Entry(name: Name, size: u64, parent: u64, id: u64, kind: u16, regionSize: u16, flags: u32, frame: u64)

  const FILE := 2
  const DIRECTORY := 3

  function ZeroName(): Name { seq(24, i => 0) }

  /** A free slot is all zero bytes; its id is 0. */
  function FreeSlot(): Entry { Entry(ZeroName(), 0, 0, 0, 0, 0, 0, 0) }

  function Encode(e: Entry): Slot {
    e.name + LeBytes(e.size, 8) + LeBytes(e.parent, 8) + LeBytes(e.id, 8)
    + LeBytes(e.kind, 2) + LeBytes(e.regionSize, 2) + LeBytes(e.flags, 4) + LeBytes(e.frame, 8)
  }

  function Word(raw: Slot, off: nat, n: nat): (v: nat)
    requires off + n <= 64
    ensures v < Pow256(n)
  {
    LeBytesOfValue(raw[off..off + n]);
    LeValue(raw[off..off + n])
  }

  function Decode(raw: Slot): Entry {
    Pow256Eight();
    Entry(raw[..24], Word(raw, 24, 8), Word(raw, 32, 8), Word(raw, 40, 8),
          Word(raw, 48, 2), Word(raw, 50, 2), Word(raw, 52, 4), Word(raw, 56, 8))
  }

  lemma WordOf(raw: Slot, off: nat, n: nat, v: nat)
    requires off + n <= 64 && v < Pow256(n)
    requires raw[off..off + n] == LeBytes(v, n)
    ensures Word(raw, off, n) == v
  {
    LeValueOfBytes(v, n);
  }

  /** An entry survives being written to its 64 bytes and read back. */
  lemma DecodeEncode(e: Entry)
    ensures Decode(Encode(e)) == e
  {
    var r := Encode(e);
    Pow256Eight();
    assert r[..24] == e.name;
    WordOf(r, 24, 8, e.size);
    WordOf(r, 32, 8, e.parent);
    WordOf(r, 40, 8, e.id);
    WordOf(r, 48, 2, e.kind);
    WordOf(r, 50, 2, e.regionSize);
    WordOf(r, 52, 4, e.flags);
    WordOf(r, 56, 8, e.frame);
  }

  /** Where each field of an entry lies in its 64 bytes, lowest byte first. */
  lemma FieldsAt(e: Entry)
    ensures var r := Encode(e);
      && r[..24] == e.name && LeValue(r[24..32]) == e.size && LeValue(r[32..40]) == e.parent && LeValue(r[40..48]) == e.id
      && LeValue(r[48..50]) == e.kind && LeValue(r[50..52]) == e.regionSize && LeValue(r[52..56]) == e.flags
      && LeValue(r[56..]) == e.frame
  {
    DecodeEncode(e);
    hide Encode;
    assert Encode(e)[56..64] == Encode(e)[56..];
  }

  /** Every 64 bytes are the encoding of what they decode to. */
  lemma EncodeDecode(r: Slot)
    ensures Encode(Decode(r)) == r
  {
    LeBytesOfValue(r[24..32]);
    LeBytesOfValue(r[32..40]);
    LeBytesOfValue(r[40..48]);
    LeBytesOfValue(r[48..50]);
    LeBytesOfValue(r[50..52]);
    LeBytesOfValue(r[52..56]);
    LeBytesOfValue(r[56..64]);
    assert r == r[..24] + r[24..32] + r[32..40] + r[40..48] + r[48..50] + r[50..52] + r[52..56] + r[56..64];
  }

  lemma {:induction false} LeValueZero(s: seq<byte>)
    requires forall k :: 0 <= k < |s| ==> s[k] == 0
    ensures LeValue(s) == 0
  {
    if s != [] { LeValueZero(s[1..]); }
  }

  lemma DecodeZero(r: Slot)
    requires forall k :: 0 <= k < 64 ==> r[k] == 0
    ensures Decode(r) == FreeSlot()
  {
    LeValueZero(r[24..32]);
    LeValueZero(r[32..40]);
    LeValueZero(r[40..48]);
    LeValueZero(r[48..50]);
    LeValueZero(r[50..52]);
    LeValueZero(r[52..56]);
    LeValueZero(r[56..64]);
    assert r[..24] == ZeroName();
  }

  /** The characters of a C string up to its NUL. */
  function CString(s: seq<byte>): (c: seq<byte>)
    ensures |c| <= |s| && c == s[..|c|] && 0 !in c
    ensures |c| < |s| ==> s[|c|] == 0
  {
    if s == [] || s[0] == 0 then [] else [s[0]] + CString(s[1..])
  }

  /** A C string literal of at most 23 characters in a 24-byte field. */
  function NameField(c: seq<byte>): (n: Name)
    requires |c| <= 23
  {
    c + seq(24 - |c|, i => 0)
  }

  lemma {:induction false} CStringIs(s: seq<byte>, k: nat)
    requires k <= |s| && 0 !in s[..k] && (k < |s| ==> s[k] == 0)
    ensures CString(s) == s[..k]
  {
    if k > 0 {
      assert s[0] in s[..k];
      assert s[1..][..k - 1] == s[..k][1..];
      CStringIs(s[1..], k - 1);
    }
  }

  lemma CStringOfName(c: seq<byte>)
    requires |c| <= 23 && 0 !in c
    ensures CString(NameField(c)) == c
  {
    CStringIs(NameField(c), |c|);
    assert NameField(c)[..|c|] == c;
  }
}
