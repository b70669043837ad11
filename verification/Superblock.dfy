/** The superblock: its 64-bit FNV-1a checksum (section 2 of draft-eastlake-fnv), its fields, and what
    is accepted when it is loaded. */
module Superblock {
  import opened Bytes
  import opened Bits
  import opened Regions
  import opened Disk

  // ---------------------------------------------------------------- the checksum

  const BASIS: u64 := 14695981039346656037
  const PRIME := 1099511628211
  const INVERSE := 0xCE96_5057_AFF6_957B   // PRIME * INVERSE == 1 + 887285111055 * 2^64

  /** `h ^ b`, with `b` widened to 64 bits. */
  function XorByte(h: u64, b: byte): u64 {
    Pow2Eight();
    h / 256 * 256 + Xor(h % 256, b, 8)
  }

  /** `h * PRIME` in 64-bit arithmetic. */
  function MulPrime(h: u64): u64 {
    h * PRIME % 0x1_0000_0000_0000_0000
  }

  /** One step of FNV-1a: exclusive or first, then multiply. */
  function FnvStep(h: u64, b: byte): u64 {
    MulPrime(XorByte(h, b))
  }

  function Fnv(s: seq<byte>): u64 {
    if s == [] then BASIS else FnvStep(Fnv(s[..|s| - 1]), s[|s| - 1])
  }

  /** The published values for the empty string and for "a". */
  lemma FnvVectors()
    ensures Fnv([]) == 0xcbf2_9ce4_8422_2325 && Fnv([97]) == 0xaf63_dc4c_8601_ec8c
  {
    Pow2Eight();
    assert [97 as byte][..0] == [];
    assert Xor(0x25, 97, 8) == 0x44;
    assert XorByte(BASIS, 97) == 0xcbf2_9ce4_8422_2344;
    assert Fnv([97]) == FnvStep(Fnv([]), 97);
  }

  lemma MulPrimeInverse(h: u64)
    ensures MulPrime(h) * INVERSE % 0x1_0000_0000_0000_0000 == h
  {
    var r, q := MulPrime(h), h * PRIME / 0x1_0000_0000_0000_0000;
    assert h * PRIME == U64 * q + r;
    QuotientIs(r * INVERSE, U64, h * 887285111055 - q * INVERSE, h);
  }

  /** A step loses nothing: with equal results, equal states mean equal bytes and the other way round. */
  lemma StepInjective(h: u64, b: byte, h': u64, b': byte)
    requires FnvStep(h, b) == FnvStep(h', b')
    ensures h == h' <==> b == b'
  {
    Pow2Eight();
    MulPrimeInverse(XorByte(h, b));
    MulPrimeInverse(XorByte(h', b'));
    var x, x' := Xor(h % 256, b, 8), Xor(h' % 256, b', 8);
    Unique(256, h / 256, x, h' / 256, x');
    XorInjective(h % 256, b, h' % 256, b', 8);
  }

  ghost predicate DifferAt(s: seq<byte>, t: seq<byte>, k: nat) {
    |s| == |t| && k < |s| && s[k] != t[k] && forall j :: 0 <= j < |s| && j != k ==> s[j] == t[j]
  }

  /** No two byte strings that differ in exactly one place have the same checksum. */
  lemma {:induction false} FnvDiffers(s: seq<byte>, t: seq<byte>, k: nat)
    requires DifferAt(s, t, k)
    ensures Fnv(s) != Fnv(t)
    decreases |s|
  {
    var l := |s| - 1;
    if k == l {
      assert s[..l] == t[..l];
    } else {
      FnvDiffers(s[..l], t[..l], k);
    }
    if Fnv(s) == Fnv(t) {
      StepInjective(Fnv(s[..l]), s[l], Fnv(t[..l]), t[l]);
    }
  }

  // ---------------------------------------------------------------- the sector

  /** The layout globals. */
  datatype Layout = Layout(total: u64, bm: u64, table: u64, storage: u64)

  const VERSION := 1
  const PAYLOAD := 56   // fs_sb_payload_bytes

  function Magic(): seq<byte> { [83, 73, 77, 80, 76, 69, 70, 83] }   // "SIMPLEFS"

  function Payload(l: Layout): (s: seq<byte>)
    ensures |s| == PAYLOAD
  {
    Magic() + LeBytes(VERSION, 8) + LeBytes(l.total, 8) + LeBytes(l.bm, 8) + LeBytes(l.table, 8)
    + LeBytes(l.storage, 8) + LeBytes(TABLE_SECTORS, 8)
  }

  function SuperblockOf(l: Layout): Sector {
    Payload(l) + LeBytes(Fnv(Payload(l)), 8) + seq(448, i => 0)
  }

  function Field(s: Sector, off: nat): u64
    requires off + 8 <= 512
  {
    LeBytesOfValue(s[off..off + 8]);
    Pow256Eight();
    LeValue(s[off..off + 8])
  }

  predicate ChecksumOk(s: Sector) {
    Field(s, 56) == Fnv(s[..PAYLOAD])
  }

  /** `fs_load_superblock` on a disk of `disk` sectors: the layout it accepts, if any. */
  function Load(s: Sector, disk: u64): (l: Option<Layout>)
    ensures l.Some? ==> l.value.storage < l.value.total <= disk
  {
    var total, bm, table, storage := Field(s, 16), Field(s, 24), Field(s, 32), Field(s, 40);
    if s[..8] != Magic() || !ChecksumOk(s) || Field(s, 8) != VERSION then None
    else if Field(s, 48) != TABLE_SECTORS then None
    else if table != Add64(bm, 2) || storage != Add64(table, TABLE_SECTORS) then None
    else if total > disk || storage >= total then None
    else Some(Layout(total, bm, table, storage))
  }

  lemma FieldIs(s: Sector, off: nat, v: u64)
    requires off + 8 <= 512 && s[off..off + 8] == LeBytes(v, 8)
    ensures Field(s, off) == v
  {
    Pow256Eight();
    LeValueOfBytes(v, 8);
  }

  /** The payload, byte by byte: field `i` of eight bytes. */
  function PayloadField(l: Layout, i: nat): seq<byte> {
    if i == 0 then Magic() else if i == 1 then LeBytes(VERSION, 8) else if i == 2 then LeBytes(l.total, 8)
    else if i == 3 then LeBytes(l.bm, 8) else if i == 4 then LeBytes(l.table, 8)
    else if i == 5 then LeBytes(l.storage, 8) else LeBytes(TABLE_SECTORS, 8)
  }

  lemma PayloadAt(l: Layout, i: nat)
    requires i < 7
    ensures Payload(l)[8 * i..8 * i + 8] == PayloadField(l, i)
  {
    hide LeBytes;
  }

  lemma SuperblockAt(l: Layout, i: nat)
    requires i < 7
    ensures SuperblockOf(l)[8 * i..8 * i + 8] == PayloadField(l, i)
  {
    PayloadAt(l, i);
    hide Payload, PayloadField, LeBytes, Fnv;
    var s := SuperblockOf(l);
    assert s[..56] == Payload(l);
    assert s[8 * i..8 * i + 8] == s[..56][8 * i..8 * i + 8];
  }

  lemma FieldsOf(l: Layout)
    ensures var s := SuperblockOf(l);
      && Field(s, 8) == VERSION && Field(s, 16) == l.total && Field(s, 24) == l.bm
      && Field(s, 32) == l.table && Field(s, 40) == l.storage && Field(s, 48) == TABLE_SECTORS
  {
    hide SuperblockOf, Field, LeBytes;
    var s := SuperblockOf(l);
    SuperblockAt(l, 1);
    FieldIs(s, 8, VERSION);
    SuperblockAt(l, 2);
    FieldIs(s, 16, l.total);
    SuperblockAt(l, 3);
    FieldIs(s, 24, l.bm);
    SuperblockAt(l, 4);
    FieldIs(s, 32, l.table);
    SuperblockAt(l, 5);
    FieldIs(s, 40, l.storage);
    SuperblockAt(l, 6);
    FieldIs(s, 48, TABLE_SECTORS);
  }

  /** A superblock begins with eight letters, version 1, and names 128 table sectors. */
  lemma BeginsWith(l: Layout)
    ensures forall i :: 0 <= i < 8 ==> SuperblockOf(l)[i] == "SIMPLEFS"[i] as byte
    ensures Field(SuperblockOf(l), 8) == 1 && Field(SuperblockOf(l), 48) == 128
  {
    FieldsOf(l);
    SuperblockChecks(l);
    hide Field, Fnv, LeBytes;
    var s := SuperblockOf(l);
    forall i | 0 <= i < 8
      ensures s[i] == Magic()[i]
    {
      assert s[i] == s[..8][i];
    }
  }

  lemma SuperblockChecks(l: Layout)
    ensures ChecksumOk(SuperblockOf(l)) && SuperblockOf(l)[..8] == Magic()
  {
    var s := SuperblockOf(l);
    assert s[..PAYLOAD] == Payload(l);
    FieldIs(s, 56, Fnv(Payload(l)));
    assert Payload(l)[..8] == Magic();
  }

  /** What is written is read back, exactly when the layout is one the loader allows. */
  lemma LoadSuperblock(l: Layout, disk: u64)
    ensures Load(SuperblockOf(l), disk) ==
      if l.table == Add64(l.bm, 2) && l.storage == Add64(l.table, TABLE_SECTORS) && l.storage < l.total <= disk
      then Some(l) else None
  {
    FieldsOf(l);
    SuperblockChecks(l);
  }

  lemma FieldBytes(s: Sector, off: nat, v: u64)
    requires off + 8 <= 512 && Field(s, off) == v
    ensures s[off..off + 8] == LeBytes(v, 8)
  {
    LeBytesOfValue(s[off..off + 8]);
  }

  /** The loader accepts exactly the sectors that begin with the 64 bytes of a superblock whose layout it allows. */
  lemma LoadAccepts(s: Sector, disk: u64, l: Layout)
    ensures Load(s, disk) == Some(l) <==>
      && s[..64] == SuperblockOf(l)[..64]
      && l.table == Add64(l.bm, 2) && l.storage == Add64(l.table, TABLE_SECTORS) && l.storage < l.total <= disk
  {
    LoadSuperblock(l, disk);
    if s[..64] == SuperblockOf(l)[..64] {
      forall j | 0 <= j < 64
        ensures s[j] == SuperblockOf(l)[j]
      {
        assert s[..64][j] == SuperblockOf(l)[..64][j];
      }
      SamePrefix(SuperblockOf(l), s);
    }
    if Load(s, disk) == Some(l) {
      LoadedBytes(s, disk, l);
    }
  }

  lemma LoadedBytes(s: Sector, disk: u64, l: Layout)
    requires Load(s, disk) == Some(l)
    ensures s[..64] == SuperblockOf(l)[..64]
  {
    hide Field, LeBytes, Fnv, Load, SuperblockOf;
    LoadedFields(s, disk, l);
    FieldBytes(s, 8, VERSION);
    FieldBytes(s, 16, l.total);
    FieldBytes(s, 24, l.bm);
    FieldBytes(s, 32, l.table);
    FieldBytes(s, 40, l.storage);
    FieldBytes(s, 48, TABLE_SECTORS);
    FieldBytes(s, 56, Fnv(s[..PAYLOAD]));
    SevenFields(s, l);
    WithChecksum(s, l);
  }

  lemma LoadedFields(s: Sector, disk: u64, l: Layout)
    requires Load(s, disk) == Some(l)
    ensures s[..8] == Magic() && Field(s, 8) == VERSION && Field(s, 16) == l.total && Field(s, 24) == l.bm
    ensures Field(s, 32) == l.table && Field(s, 40) == l.storage && Field(s, 48) == TABLE_SECTORS
    ensures Field(s, 56) == Fnv(s[..PAYLOAD])
  {
    hide Field, Fnv;
  }

  lemma SevenFields(s: Sector, l: Layout)
    requires s[..8] == Magic() && s[8..16] == LeBytes(VERSION, 8) && s[16..24] == LeBytes(l.total, 8)
    requires s[24..32] == LeBytes(l.bm, 8) && s[32..40] == LeBytes(l.table, 8) && s[40..48] == LeBytes(l.storage, 8)
    requires s[48..56] == LeBytes(TABLE_SECTORS, 8)
    ensures s[..PAYLOAD] == Payload(l)
  {
    hide LeBytes;
    assert s[..56] == s[..8] + s[8..16] + s[16..24] + s[24..32] + s[32..40] + s[40..48] + s[48..56];
  }

  lemma WithChecksum(s: Sector, l: Layout)
    requires s[..PAYLOAD] == Payload(l) && s[56..64] == LeBytes(Fnv(Payload(l)), 8)
    ensures s[..64] == SuperblockOf(l)[..64]
  {
    hide LeBytes, Fnv, Payload;
    assert s[..64] == s[..56] + s[56..64];
  }

  /** Changing any one of the bytes 0..63 of a sector whose checksum is right makes it wrong. */
  lemma CorruptionDetected(s: Sector, t: Sector, k: nat)
    requires ChecksumOk(s) && DifferAt(s, t, k) && k < 64
    ensures !ChecksumOk(t)
  {
    if k < PAYLOAD {
      assert DifferAt(s[..PAYLOAD], t[..PAYLOAD], k);
      FnvDiffers(s[..PAYLOAD], t[..PAYLOAD], k);
      assert s[56..64] == t[56..64];
    } else {
      assert s[..PAYLOAD] == t[..PAYLOAD];
      assert s[56..64][k - 56] != t[56..64][k - 56];
      if Field(s, 56) == Field(t, 56) {
        LeValueInjective(s[56..64], t[56..64]);
      }
    }
  }

  /** So a written superblock with one of its first 64 bytes changed is rejected on every disk; changing
      any other byte makes no difference to the loader. */
  lemma CorruptionRejected(l: Layout, t: Sector, k: nat, disk: u64)
    requires DifferAt(SuperblockOf(l), t, k)
    ensures Load(t, disk) == if k < 64 then None else Load(SuperblockOf(l), disk)
  {
    SuperblockChecks(l);
    if k < 64 {
      CorruptionDetected(SuperblockOf(l), t, k);
    } else {
      SamePrefix(SuperblockOf(l), t);
    }
  }

  lemma SamePrefix(s: Sector, t: Sector)
    requires forall j :: 0 <= j < 64 ==> s[j] == t[j]
    ensures forall disk :: Load(t, disk) == Load(s, disk)
  {
    assert s[..8] == t[..8] && s[..PAYLOAD] == t[..PAYLOAD];
    forall off | 0 <= off <= 56
      ensures Field(s, off) == Field(t, off)
    {
      assert s[off..off + 8] == t[off..off + 8];
    }
  }

  // ---------------------------------------------------------------- the byte loops

  method SbPut64(b: array<byte>, off: nat, v: u64)
    requires b.Length == 512 && off + 8 <= 512
    modifies b
    ensures b[..off + 8] == old(b[..off]) + LeBytes(v, 8)
    ensures forall j :: off + 8 <= j < 512 ==> b[j] == old(b[j])
  {
    ghost var w := LeBytes(v, 8);
    for i := 0 to 8
      invariant forall j :: 0 <= j < 512 ==> b[j] == if off <= j < off + i then w[j - off] else old(b[j])
    {
      LeByteAt(v, 8, i);
      b[off + i] := v / Pow256(i) % 256;
    }
  }

  method SbGet64(b: array<byte>, off: nat) returns (v: u64)
    requires b.Length == 512 && off + 8 <= 512
    ensures v == Field(b[..], off)
  {
    ghost var s := b[off..off + 8];
    var acc: nat := 0;
    for i := 0 to 8
      invariant acc == LeValue(s[..i])
    {
      assert s[..i + 1] == s[..i] + [s[i]];
      LeValueAppend(s[..i], s[i]);
      acc := acc + b[off + i] * Pow256(i);
    }
    assert s[..8] == s == b[..][off..off + 8];
    LeBytesOfValue(s);
    Pow256Eight();
    v := acc;
  }

  method SbChecksum(b: array<byte>) returns (h: u64)
    requires b.Length == 512
    ensures h == Fnv(b[..PAYLOAD])
  {
    h := BASIS;
    for i := 0 to PAYLOAD
      invariant h == Fnv(b[..i])
    {
      assert b[..i + 1][..i] == b[..i];
      h := XorByte(h, b[i]);
      h := MulPrime(h);
    }
  }

  method SbMagicOk(b: array<byte>) returns (ok: bool)
    requires b.Length == 512
    ensures ok <==> b[..8] == Magic()
  {
    for i := 0 to 8
      invariant b[..i] == Magic()[..i]
    {
      if b[i] != Magic()[i] {
        assert b[..8][i] == b[i];
        return false;
      }
    }
    return true;
  }
}
