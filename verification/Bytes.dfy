/** Bytes, machine words and little-endian encodings, as the kernel's byte loops compute them. */
module Bytes {
  type byte = x: int | 0 <= x < 256

  const U64 := 0x1_0000_0000_0000_0000
  const NOT_FOUND := U64 - 1

  type u64 = x: int | 0 <= x < U64
  type u32 = x: int | 0 <= x < 0x1_0000_0000
  type u16 = x: int | 0 <= x < 0x1_0000

  /** Unsigned 64-bit addition: the carry is lost. */
  function Add64(a: u64, b: u64): u64 {
    if a + b < U64 then a + b else a + b - U64
  }

  function Min(a: int, b: int): int { if a <= b then a else b }

  datatype Option<+T> = None | Some(value: T)

  function Pow256(n: nat): (p: nat)
    ensures p > 0
  {
    if n == 0 then 1 else 256 * Pow256(n - 1)
  }

  /** The loops `b[off + i] = (uint8_t)(v >> (i * 8))`. */
  function LeBytes(v: nat, n: nat): (s: seq<byte>)
    ensures |s| == n
  {
    if n == 0 then [] else [v % 256] + LeBytes(v / 256, n - 1)
  }

  /** The value of a little-endian byte string. */
  function LeValue(s: seq<byte>): nat {
    if s == [] then 0 else s[0] + 256 * LeValue(s[1..])
  }

  lemma {:induction false} LeValueOfBytes(v: nat, n: nat)
    requires v < Pow256(n)
    ensures LeValue(LeBytes(v, n)) == v
  {
    if n > 0 {
      LeValueOfBytes(v / 256, n - 1);
      assert LeBytes(v, n)[1..] == LeBytes(v / 256, n - 1);
    }
  }

  lemma {:induction false} LeBytesOfValue(s: seq<byte>)
    ensures LeValue(s) < Pow256(|s|)
    ensures LeBytes(LeValue(s), |s|) == s
  {
    if s != [] {
      LeBytesOfValue(s[1..]);
    }
  }

  lemma {:induction false} LeValueInjective(s: seq<byte>, t: seq<byte>)
    requires |s| == |t| && LeValue(s) == LeValue(t)
    ensures s == t
  {
    LeBytesOfValue(s);
    LeBytesOfValue(t);
  }

  lemma {:induction false} LeValueAppend(s: seq<byte>, b: byte)
    ensures LeValue(s + [b]) == LeValue(s) + b * Pow256(|s|)
  {
    if s == [] {
      assert s + [b] == [b];
    } else {
      LeValueAppend(s[1..], b);
      assert (s + [b])[1..] == s[1..] + [b];
      assert 256 * (b * Pow256(|s| - 1)) == b * Pow256(|s|);
    }
  }

  lemma {:induction false} LeByteAt(v: nat, n: nat, k: nat)
    requires k < n
    ensures LeBytes(v, n)[k] == (v / Pow256(k)) % 256
  {
    if k > 0 {
      LeByteAt(v / 256, n - 1, k - 1);
      DivDiv(v, 256, Pow256(k - 1));
    }
  }

  lemma DivDiv(v: nat, a: nat, b: nat)
    requires a > 0 && b > 0
    ensures a * b > 0 && (v / a) / b == v / (a * b)
  {
    var q := (v / a) / b;
    var x := v / a;
    var y := x % b;
    assert v == a * x + v % a && x == b * q + y;
    assert a * x == a * b * q + a * y by {
      assert a * (b * q + y) == a * (b * q) + a * y;
      assert a * (b * q) == a * b * q;
    }
    assert a * b == a * y + a * (b - y) by { assert b == y + (b - y); }
    AtLeast(a, b - y);
    QuotientIs(v, a * b, q, a * y + v % a);
  }

  /** A division is determined by its quotient and remainder. */
  lemma QuotientIs(v: int, d: int, q: int, rem: int)
    requires d > 0 && 0 <= rem < d && v == d * q + rem
    ensures v / d == q && v % d == rem
  {
    Unique(d, q, rem, v / d, v % d);
  }

  lemma Unique(d: int, q: int, rem: int, q': int, rem': int)
    requires 0 <= rem < d && 0 <= rem' < d
    requires d * q + rem == d * q' + rem'
    ensures q == q' && rem == rem'
  {
    if q < q' {
      assert d * (q' - q) == d * q' - d * q;
      AtLeast(d, q' - q);
    } else if q' < q {
      assert d * (q - q') == d * q - d * q';
      AtLeast(d, q - q');
    }
  }

  lemma AtLeast(d: int, k: int)
    requires d > 0 && k >= 1
    ensures d * k >= d
  {
    assert d * k == d + d * (k - 1);
    assert d * (k - 1) >= 0;
  }

  lemma Pow256Eight()
    ensures Pow256(8) == U64 && Pow256(2) == 0x1_0000 && Pow256(4) == 0x1_0000_0000
  {
    assert Pow256(4) == 256 * 256 * 256 * 256;
    assert Pow256(8) == 256 * 256 * 256 * 256 * Pow256(4);
  }
}
