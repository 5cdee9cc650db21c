/**
 The bit operations of C on a uint8_t, written with arithmetic, and the packing of bit tables into bytes
 that the protocol prescribes (low bit first, padding bits zero).
 */
module Bits {
  import opened Bytes

  // ----- bits of a natural number

  /** `(b >> j) & 1`. */
  predicate BitOf(b: nat, j: nat) {
    if j == 0 then b % 2 == 1 else BitOf(b / 2, j - 1)
  }

  function Unit(bit: bool): nat {
    if bit then 1 else 0
  }

  function Pow2(j: nat): (p: nat)
    ensures 1 <= p
  {
    if j == 0 then 1 else 2 * Pow2(j - 1)
  }

  lemma {:induction false} SameBits(a: nat, b: nat, n: nat)
    requires a < Pow2(n) && b < Pow2(n)
    requires forall j :: 0 <= j < n ==> BitOf(a, j) == BitOf(b, j)
    ensures a == b
    decreases n
  {
    if n > 0 {
      assert BitOf(a, 0) == BitOf(b, 0);
      forall j | 0 <= j < n - 1
        ensures BitOf(a / 2, j) == BitOf(b / 2, j)
      {
        assert BitOf(a, j + 1) == BitOf(b, j + 1);
      }
      SameBits(a / 2, b / 2, n - 1);
    }
  }

  lemma {:induction false} ZeroHasNoBits(j: nat)
    ensures !BitOf(0, j)
    decreases j
  {
    if j > 0 {
      ZeroHasNoBits(j - 1);
    }
  }

  lemma {:induction false} BitOfPow2(j: nat, k: nat)
    ensures BitOf(Pow2(j), k) <==> j == k
    decreases k
  {
    if j == 0 {
      if k > 0 {
        ZeroHasNoBits(k - 1);
      }
    } else if k > 0 {
      BitOfPow2(j - 1, k - 1);
    }
  }

  // ----- bitwise operations on n bits

  function OrBits(a: nat, b: nat, n: nat): (r: nat)
    ensures r < Pow2(n)
  {
    if n == 0 then 0 else Unit(a % 2 == 1 || b % 2 == 1) + 2 * OrBits(a / 2, b / 2, n - 1)
  }

  function AndBits(a: nat, b: nat, n: nat): (r: nat)
    ensures r < Pow2(n)
  {
    if n == 0 then 0 else Unit(a % 2 == 1 && b % 2 == 1) + 2 * AndBits(a / 2, b / 2, n - 1)
  }

  lemma {:induction false} BitOfOrBits(a: nat, b: nat, n: nat, j: nat)
    requires j < n
    ensures BitOf(OrBits(a, b, n), j) == (BitOf(a, j) || BitOf(b, j))
    decreases j
  {
    if j > 0 {
      BitOfOrBits(a / 2, b / 2, n - 1, j - 1);
    }
  }

  lemma {:induction false} BitOfAndBits(a: nat, b: nat, n: nat, j: nat)
    requires j < n
    ensures BitOf(AndBits(a, b, n), j) == (BitOf(a, j) && BitOf(b, j))
    decreases j
  {
    if j > 0 {
      BitOfAndBits(a / 2, b / 2, n - 1, j - 1);
    }
  }

  lemma {:induction false} BitOfComplement(b: nat, n: nat, j: nat)
    requires j < n && b < Pow2(n)
    ensures BitOf(Pow2(n) - 1 - b, j) == !BitOf(b, j)
    decreases j
  {
    HalfComplement(Pow2(n - 1), b);
    if j > 0 {
      BitOfComplement(b / 2, n - 1, j - 1);
    }
  }

  lemma HalfComplement(p: nat, b: nat)
    requires b < 2 * p
    ensures (2 * p - 1 - b) / 2 == p - 1 - b / 2
    ensures (2 * p - 1 - b) % 2 == 1 - b % 2
  {
  }

  // ----- the operations on a uint8_t

  lemma EightBits()
    ensures Pow2(8) == 0x100
  {
    assert Pow2(2) == 4;
    assert Pow2(4) == 16;
    assert Pow2(6) == 64;
  }

  lemma {:induction false} Pow2Grows(j: nat, n: nat)
    requires j < n
    ensures 2 * Pow2(j) <= Pow2(n)
    decreases n
  {
    if j < n - 1 {
      Pow2Grows(j, n - 1);
    }
  }

  /** `a | b`. */
  function Or(a: byte, b: byte): byte {
    EightBits();
    OrBits(a, b, 8)
  }

  /** `a & b`. */
  function And(a: byte, b: byte): byte {
    EightBits();
    AndBits(a, b, 8)
  }

  /** `~b`. */
  function Not(b: byte): byte {
    0xFF - b
  }

  /** `v << j`, stored into a uint8_t. */
  function Shl(v: byte, j: nat): byte {
    v * Pow2(j) % 0x100
  }

  lemma BitOfOr(a: byte, b: byte, j: nat)
    requires j < 8
    ensures BitOf(Or(a, b), j) == (BitOf(a, j) || BitOf(b, j))
  {
    BitOfOrBits(a, b, 8, j);
  }

  lemma BitOfAnd(a: byte, b: byte, j: nat)
    requires j < 8
    ensures BitOf(And(a, b), j) == (BitOf(a, j) && BitOf(b, j))
  {
    BitOfAndBits(a, b, 8, j);
  }

  lemma BitOfNot(b: byte, j: nat)
    requires j < 8
    ensures BitOf(Not(b), j) == !BitOf(b, j)
  {
    EightBits();
    BitOfComplement(b, 8, j);
  }

  lemma SameByte(a: byte, b: byte)
    requires forall j :: 0 <= j < 8 ==> BitOf(a, j) == BitOf(b, j)
    ensures a == b
  {
    EightBits();
    SameBits(a, b, 8);
  }

  lemma ShlOne(j: nat)
    requires j < 8
    ensures Shl(0, j) == 0 && Shl(1, j) == Pow2(j)
  {
    EightBits();
    Pow2Grows(j, 8);
    assert 0 * Pow2(j) == 0;
  }

  lemma ShlBit(v: byte, j: nat, k: nat)
    requires v <= 1 && j < 8 && k < 8
    ensures BitOf(Shl(v, j), k) <==> v == 1 && j == k
  {
    hide Shl, Pow2;
    ShlOne(j);
    BitOfPow2(j, k);
    ZeroHasNoBits(k);
  }

  /** `b & (1 << j)` as a condition. */
  lemma TestBit(b: byte, j: nat)
    requires j < 8
    ensures And(b, Shl(1, j)) != 0 <==> BitOf(b, j)
  {
    BitOfAnd(b, Shl(1, j), j);
    ShlBit(1, j, j);
    ZeroHasNoBits(j);
    if !BitOf(b, j) {
      forall k | 0 <= k < 8
        ensures BitOf(And(b, Shl(1, j)), k) == BitOf(0, k)
      {
        BitOfAnd(b, Shl(1, j), k);
        ShlBit(1, j, k);
        ZeroHasNoBits(k);
      }
      SameByte(And(b, Shl(1, j)), 0);
    }
  }

  /** `b | (1 << j)` and `b & ~(1 << j)` change bit `j` and no other. */
  lemma AssignBit(b: byte, j: nat, k: nat)
    requires j < 8 && k < 8
    ensures BitOf(Or(b, Shl(1, j)), k) == (k == j || BitOf(b, k))
    ensures BitOf(And(b, Not(Shl(1, j))), k) == (k != j && BitOf(b, k))
  {
    BitOfOr(b, Shl(1, j), k);
    BitOfAnd(b, Not(Shl(1, j)), k);
    BitOfNot(Shl(1, j), k);
    ShlBit(1, j, k);
  }
}
