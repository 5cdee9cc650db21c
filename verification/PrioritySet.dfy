/**
 The priority sets of the QP framework.  The look-up tables of the framework are given by what they are
 documented to hold.
 */
module PrioritySet {
  import opened Bytes
  import opened Bits

  // ----- the look-up tables

  /** `QF_log2Lkup`: the 1-based number of the most significant 1-bit; 0 for 0. */
  function Log2(b: nat): nat {
    if b == 0 then 0 else 1 + Log2(b / 2)
  }

  /** `QF_pwr2Lkup`. */
  function Pwr2(n: nat): byte
    requires 1 <= n
  {
    Shl(1, (n - 1) % 8)
  }

  /** `QF_invPwr2Lkup`. */
  function InvPwr2(n: nat): byte
    requires 1 <= n
  {
    Not(Pwr2(n))
  }

  /** `QF_div8Lkup`. */
  function Div8(n: nat): nat
    requires 1 <= n
  {
    (n - 1) / 8
  }

  /** The highest bit is set, and the bits above it are not. */
  lemma {:induction false} Log2IsHighest(b: nat, j: nat)
    ensures 0 < b ==> BitOf(b, Log2(b) - 1)
    ensures Log2(b) <= j ==> !BitOf(b, j)
    decreases b
  {
    if b > 0 {
      Log2IsHighest(b / 2, if j == 0 then 0 else j - 1);
    } else {
      ZeroHasNoBits(j);
    }
  }

  lemma {:induction false} Log2Bound(b: nat, n: nat)
    requires b < Pow2(n)
    ensures Log2(b) <= n
    decreases n
  {
    if b > 0 {
      Log2Bound(b / 2, n - 1);
    }
  }

  lemma HighestBit(b: byte) returns (j: nat)
    requires b != 0
    ensures j == Log2(b) - 1 && j < 8 && BitOf(b, j)
  {
    j := Log2(b) - 1;
    Log2IsHighest(b, j);
    EightBits();
    Log2Bound(b, 8);
  }

  lemma Log2Positive(b: nat)
    ensures 0 < Log2(b) <==> 0 < b
  {
  }

  // ----- the contents

  /** Element `n` of the bytes. */
  predicate Has(bits: seq<byte>, n: nat)
    requires |bits| == 8
  {
    1 <= n <= 64 && BitOf(bits[(n - 1) / 8], (n - 1) % 8)
  }

  function Elements(bits: seq<byte>): set<nat>
    requires |bits| == 8
  {
    set n: nat | 1 <= n <= 64 && Has(bits, n)
  }

  /** Bit `k` of the summary tells whether byte `k` has an element. */
  predicate Summarizes(bytes: byte, bits: seq<byte>)
    requires |bits| == 8
  {
    forall k :: 0 <= k < 8 ==> (BitOf(bytes, k) <==> bits[k] != 0)
  }

  /** The byte with bit `j` set or cleared, and the summary kept up. */
  lemma ElementsChange(bits: seq<byte>, n: nat, b: byte, v: bool)
    requires |bits| == 8 && 1 <= n <= 64
    requires forall j :: 0 <= j < 8 ==>
               BitOf(b, j) == if j == (n - 1) % 8 then v else BitOf(bits[(n - 1) / 8], j)
    ensures Elements(bits[(n - 1) / 8 := b]) == if v then Elements(bits) + {n} else Elements(bits) - {n}
  {
    var bits' := bits[(n - 1) / 8 := b];
    forall i: nat | 1 <= i <= 64
      ensures Has(bits', i) == if i == n then v else Has(bits, i)
    {
    }
  }

  /** The largest element is found in the highest byte that is not zero. */
  lemma HighestElement(bytes: byte, bits: seq<byte>)
    requires |bits| == 8 && Summarizes(bytes, bits)
    ensures bytes == 0 <==> Elements(bits) == {}
    ensures bytes != 0 ==>
              var k := Log2(bytes) - 1;
              && k < 8 && 0 < bits[k]
              && Log2(bits[k]) + 8 * k in Elements(bits)
              && forall n :: n in Elements(bits) ==> n <= Log2(bits[k]) + 8 * k
  {
    hide Log2, BitOf;
    if bytes == 0 {
      forall n: nat | 1 <= n <= 64
        ensures !Has(bits, n)
      {
        ZeroHasNoBits((n - 1) / 8);
        assert bits[(n - 1) / 8] == 0;
        ZeroHasNoBits((n - 1) % 8);
      }
    } else {
      var k := HighestBit(bytes);
      var j := HighestBit(bits[k]);
      var max := j + 1 + 8 * k;
      assert (max - 1) / 8 == k && (max - 1) % 8 == j;
      assert Has(bits, max) && max in Elements(bits);
      forall n | n in Elements(bits)
        ensures n <= max
      {
        Log2IsHighest(bytes, (n - 1) / 8);
        Log2IsHighest(bits[(n - 1) / 8], (n - 1) % 8);
        ZeroHasNoBits((n - 1) % 8);
      }
    }
  }

  /** Element `n` of a single byte. */
  predicate HasIn(b: byte, n: nat) {
    1 <= n <= 8 && BitOf(b, n - 1)
  }

  function ElementsOf(b: byte): set<nat> {
    set n: nat | 1 <= n <= 8 && HasIn(b, n)
  }

  lemma HighestOf(b: byte)
    ensures b == 0 <==> ElementsOf(b) == {}
    ensures b != 0 ==> Log2(b) in ElementsOf(b)
    ensures forall n :: n in ElementsOf(b) ==> n <= Log2(b)
  {
    if b != 0 {
      var j := HighestBit(b);
      assert HasIn(b, j + 1) && j + 1 in ElementsOf(b);
    }
    forall n: nat | HasIn(b, n)
      ensures b != 0 && n <= Log2(b)
    {
      ZeroHasNoBits(n - 1);
      Log2IsHighest(b, n - 1);
    }
  }

  /** `QPSet8`. */
  class QPSet8 {
    var mBits: byte

    constructor ()
      ensures ElementsOf(mBits) == {}
    {
      mBits := 0;
      new;
      HighestOf(mBits);
    }

    predicate IsEmpty()
      reads this
      ensures IsEmpty() <==> ElementsOf(mBits) == {}
    {
      HighestOf(mBits);
      mBits == 0
    }

    predicate HasElement(n: nat)
      requires 1 <= n <= 8
      reads this
      ensures HasElement(n) <==> n in ElementsOf(mBits)
    {
      TestBit(mBits, n - 1);
      And(mBits, Pwr2(n)) != 0
    }

    method Insert(n: nat)
      requires 1 <= n <= 8
      modifies this
      ensures ElementsOf(mBits) == old(ElementsOf(mBits)) + {n}
    {
      hide And, Or, Not, Shl, BitOf;
      forall i: nat | 1 <= i <= 8
        ensures HasIn(Or(mBits, Pwr2(n)), i) == (i == n || HasIn(mBits, i))
      {
        AssignBit(mBits, n - 1, i - 1);
      }
      mBits := Or(mBits, Pwr2(n));
    }

    method Remove(n: nat)
      requires 1 <= n <= 8
      modifies this
      ensures ElementsOf(mBits) == old(ElementsOf(mBits)) - {n}
    {
      hide And, Or, Not, Shl, BitOf;
      forall i: nat | 1 <= i <= 8
        ensures HasIn(And(mBits, InvPwr2(n)), i) == (i != n && HasIn(mBits, i))
      {
        AssignBit(mBits, n - 1, i - 1);
      }
      mBits := And(mBits, InvPwr2(n));
    }

    method FindMax() returns (n: nat)
      ensures n == 0 <==> ElementsOf(mBits) == {}
      ensures n != 0 ==> n in ElementsOf(mBits) && forall i :: i in ElementsOf(mBits) ==> i <= n
    {
      HighestOf(mBits);
      Log2Positive(mBits);
      n := Log2(mBits);
    }
  }

  /** `QPSet64`. */
  class QPSet64 {
    var mBytes: byte
    const mBits: array<byte>

    constructor ()
      ensures Valid() && Elements(mBits[..]) == {} && fresh(mBits)
    {
      mBytes := 0;
      mBits := new byte[8](i => 0);
      new;
      forall k | 0 <= k < 8 ensures !BitOf(0, k) {
        ZeroHasNoBits(k);
      }
      HighestElement(mBytes, mBits[..]);
    }

    ghost predicate Valid()
      reads this, mBits
    {
      mBits.Length == 8 && Summarizes(mBytes, mBits[..])
    }

    predicate IsEmpty()
      requires Valid()
      reads this, mBits
      ensures IsEmpty() <==> Elements(mBits[..]) == {}
    {
      HighestElement(mBytes, mBits[..]);
      mBytes == 0
    }

    predicate HasElement(n: nat)
      requires Valid() && 1 <= n <= 64
      reads this, mBits
      ensures HasElement(n) <==> n in Elements(mBits[..])
    {
      TestBit(mBits[Div8(n)], (n - 1) % 8);
      assert mBits[..][Div8(n)] == mBits[Div8(n)];
      And(mBits[Div8(n)], Pwr2(n)) != 0
    }

    method Insert(n: nat)
      requires Valid() && 1 <= n <= 64
      modifies this, mBits
      ensures Valid() && Elements(mBits[..]) == old(Elements(mBits[..])) + {n}
    {
      hide And, Or, Not, Shl, BitOf, Elements;
      ghost var bits, bytes := mBits[..], mBytes;
      var m := Div8(n);
      mBits[m] := Or(mBits[m], Pwr2(n));
      mBytes := Or(mBytes, Pwr2(m + 1));
      assert mBits[..] == bits[m := Or(bits[m], Pwr2(n))];
      forall j | 0 <= j < 8
        ensures BitOf(mBits[m], j) == if j == (n - 1) % 8 then true else BitOf(bits[m], j)
        ensures BitOf(mBytes, j) == if j == m then true else BitOf(bytes, j)
      {
        AssignBit(bits[m], (n - 1) % 8, j);
        AssignBit(bytes, m, j);
      }
      ElementsChange(bits, n, mBits[m], true);
      ZeroHasNoBits((n - 1) % 8);
    }

    method Remove(n: nat)
      requires Valid() && 1 <= n <= 64
      modifies this, mBits
      ensures Valid() && Elements(mBits[..]) == old(Elements(mBits[..])) - {n}
    {
      hide And, Or, Not, Shl, BitOf, Elements;
      ghost var bits, bytes := mBits[..], mBytes;
      var m := Div8(n);
      mBits[m] := And(mBits[m], InvPwr2(n));
      assert mBits[..] == bits[m := And(bits[m], InvPwr2(n))];
      forall j | 0 <= j < 8
        ensures BitOf(mBits[m], j) == if j == (n - 1) % 8 then false else BitOf(bits[m], j)
        ensures BitOf(And(bytes, InvPwr2(m + 1)), j) == if j == m then false else BitOf(bytes, j)
      {
        AssignBit(bits[m], (n - 1) % 8, j);
        AssignBit(bytes, m, j);
      }
      ElementsChange(bits, n, mBits[m], false);
      if mBits[m] == 0 {
        mBytes := And(mBytes, InvPwr2(m + 1));
      } else {
        ghost var j := HighestBit(mBits[m]);
        ZeroHasNoBits(j);
      }
    }

    /** `findMax`: the largest element, or 0 if there is none. */
    method FindMax() returns (n: nat)
      requires Valid()
      ensures n == 0 <==> Elements(mBits[..]) == {}
      ensures n != 0 ==> n in Elements(mBits[..]) && forall i :: i in Elements(mBits[..]) ==> i <= n
    {
      hide Log2, Elements;
      HighestElement(mBytes, mBits[..]);
      Log2Positive(mBytes);
      if mBytes != 0 {
        n := Log2(mBytes) - 1;
        Log2Positive(mBits[n]);
        n := Log2(mBits[n]) + 8 * n;
      } else {
        n := 0;
      }
    }
  }
}
