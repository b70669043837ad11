/** The C bit operators on words of a fixed width, bit by bit. */
module Bits {
  import opened Bytes

  function Pow2(w: nat): (p: nat)
    ensures p > 0
  {
    if w == 0 then 1 else 2 * Pow2(w - 1)
  }

  /** `(v >> k) & 1` */
  predicate BitOf(v: nat, k: nat) {
    if k == 0 then v % 2 == 1 else BitOf(v / 2, k - 1)
  }

  function Digit(b: bool): nat { if b then 1 else 0 }

  function Or(a: nat, b: nat, w: nat): (r: nat)
    ensures r < Pow2(w)
  {
    if w == 0 then 0 else Digit(a % 2 == 1 || b % 2 == 1) + 2 * Or(a / 2, b / 2, w - 1)
  }

  function AndNot(a: nat, b: nat, w: nat): (r: nat)
    ensures r < Pow2(w)
  {
    if w == 0 then 0 else Digit(a % 2 == 1 && b % 2 == 0) + 2 * AndNot(a / 2, b / 2, w - 1)
  }

  function Xor(a: nat, b: nat, w: nat): (r: nat)
    ensures r < Pow2(w)
  {
    if w == 0 then 0 else Digit(a % 2 != b % 2) + 2 * Xor(a / 2, b / 2, w - 1)
  }

  lemma {:induction false} BitOfOr(a: nat, b: nat, w: nat, j: nat)
    requires j < w
    ensures BitOf(Or(a, b, w), j) == (BitOf(a, j) || BitOf(b, j))
  {
    if j > 0 {
      BitOfOr(a / 2, b / 2, w - 1, j - 1);
      assert Or(a, b, w) / 2 == Or(a / 2, b / 2, w - 1);
    }
  }

  lemma {:induction false} BitOfAndNot(a: nat, b: nat, w: nat, j: nat)
    requires j < w
    ensures BitOf(AndNot(a, b, w), j) == (BitOf(a, j) && !BitOf(b, j))
  {
    if j > 0 {
      BitOfAndNot(a / 2, b / 2, w - 1, j - 1);
      assert AndNot(a, b, w) / 2 == AndNot(a / 2, b / 2, w - 1);
    }
  }

  lemma {:induction false} BitOfPow2(k: nat, j: nat)
    ensures BitOf(Pow2(k), j) <==> j == k
  {
    if k > 0 && j > 0 {
      BitOfPow2(k - 1, j - 1);
    } else if j > 0 {
      BitOfZero(j - 1);
    }
  }

  lemma {:induction false} BitOfZero(j: nat)
    ensures !BitOf(0, j)
  {
    if j > 0 { BitOfZero(j - 1); }
  }

  /** Exclusive or loses nothing: each operand can be recovered from the other and the result. */
  lemma {:induction false} XorInjective(a: nat, b: nat, a': nat, b': nat, w: nat)
    requires a < Pow2(w) && b < Pow2(w) && a' < Pow2(w) && b' < Pow2(w)
    requires Xor(a, b, w) == Xor(a', b', w)
    ensures a == a' <==> b == b'
  {
    if w > 0 {
      XorInjective(a / 2, b / 2, a' / 2, b' / 2, w - 1);
    }
  }

  lemma Pow2Eight()
    ensures Pow2(8) == 256
  {
    assert Pow2(4) == 16;
    assert Pow2(8) == 16 * Pow2(4);
  }

  /** `b |= (1 << k)` on a byte */
  function SetBit(b: byte, k: nat): (c: byte)
    requires k < 8
    ensures forall j :: 0 <= j < 8 ==> BitOf(c, j) == (j == k || BitOf(b, j))
  {
    Pow2Eight();
    assert forall j :: 0 <= j < 8 ==> BitOf(Or(b, Pow2(k), 8), j) == (j == k || BitOf(b, j)) by {
      forall j | 0 <= j < 8
        ensures BitOf(Or(b, Pow2(k), 8), j) == (j == k || BitOf(b, j))
      {
        BitOfOr(b, Pow2(k), 8, j);
        BitOfPow2(k, j);
      }
    }
    Or(b, Pow2(k), 8)
  }

  /** `b &= ~(1 << k)` on a byte */
  function ClearBit(b: byte, k: nat): (c: byte)
    requires k < 8
    ensures forall j :: 0 <= j < 8 ==> BitOf(c, j) == (j != k && BitOf(b, j))
  {
    Pow2Eight();
    assert forall j :: 0 <= j < 8 ==> BitOf(AndNot(b, Pow2(k), 8), j) == (j != k && BitOf(b, j)) by {
      forall j | 0 <= j < 8
        ensures BitOf(AndNot(b, Pow2(k), 8), j) == (j != k && BitOf(b, j))
      {
        BitOfAndNot(b, Pow2(k), 8, j);
        BitOfPow2(k, j);
      }
    }
    AndNot(b, Pow2(k), 8)
  }
}
