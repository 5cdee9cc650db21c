/**
 The CRC of the RTU backend.  The reference is the bit-by-bit register of MODBUS over Serial Line V1.02,
 section 6.2.2: reflected, polynomial 0xA001, initial value 0xFFFF.  The C code computes it a byte at a
 time from two tables; `Crc16Loop` is that loop.
 */
module Crc {
  import opened Bytes
  import opened CrcTables

  // ----- the register, one bit, one byte and one message at a time

  /** One bit: shift right, and xor the polynomial in if the bit shifted out was one. */
  function Shift(c: bv16): bv16 {
    if c & 1 == 1 then (c >> 1) ^ 0xA001 else c >> 1
  }

  function Shifts(c: bv16, n: nat): bv16 {
    if n == 0 then c else Shift(Shifts(c, n - 1))
  }

  function Shift8(c: bv16): bv16 {
    Shifts(c, 8)
  }

  function FeedByte(c: bv16, b: bv8): bv16 {
    Shift8(c ^ (b as bv16))
  }

  function Feed(c: bv16, m: seq<bv8>): bv16 {
    if m == [] then c else FeedByte(Feed(c, m[..|m| - 1]), m[|m| - 1])
  }

  function Raw(s: seq<byte>): (r: seq<bv8>)
    ensures |r| == |s|
  {
    seq(|s|, i requires 0 <= i < |s| => s[i] as bv8)
  }

  function LowByte(c: bv16): bv8 {
    (c & 0xFF) as bv8
  }

  function HighByte(c: bv16): bv8 {
    (c >> 8) as bv8
  }

  /** The value of the register after a message, low-order byte first, as the frame carries it. */
  function Crc16(s: seq<byte>): word {
    var c := Register(s);
    Word(LowByte(c) as int, HighByte(c) as int)
  }

  /** The eight steps written out, for the lemmas that a bit-level case analysis settles. */
  function EightShifts(c: bv16): bv16 {
    Shift(Shift(Shift(Shift(Shift(Shift(Shift(Shift(c))))))))
  }

  lemma Shift8IsEightShifts(c: bv16)
    ensures Shift8(c) == EightShifts(c)
  {
    assert Shifts(c, 0) == c;
    assert Shifts(c, 1) == Shift(c);
    assert Shifts(c, 2) == Shift(Shift(c));
    assert Shifts(c, 4) == Shift(Shift(Shifts(c, 2)));
    assert Shifts(c, 6) == Shift(Shift(Shifts(c, 4)));
    assert Shifts(c, 8) == Shift(Shift(Shifts(c, 6)));
  }

  // ----- the two tables are the register fed with one byte

  lemma TableHiLower(i: bv8)
    requires i < 128
    ensures TableCrcHi(i) as bv16 == EightShifts(i as bv16) & 0xFF
  {
  }

  lemma TableHiUpper(i: bv8)
    requires 128 <= i
    ensures TableCrcHi(i) as bv16 == EightShifts(i as bv16) & 0xFF
  {
  }

  lemma TableLoFirst(i: bv8)
    requires i < 8
    ensures TableCrcLo(i) as bv16 == EightShifts(i as bv16) >> 8
  {
  }

  lemma TableLoSecond(i: bv8)
    requires 8 <= i < 16
    ensures TableCrcLo(i) as bv16 == EightShifts(i as bv16) >> 8
  {
  }

  lemma TableLoSecondRow(i: bv8)
    requires 16 <= i < 32
    ensures TableCrcLo(i) as bv16 == EightShifts(i as bv16) >> 8
  {
  }

  lemma TableLoLower(i: bv8)
    requires 32 <= i < 128
    ensures TableCrcLo(i) as bv16 == EightShifts(i as bv16) >> 8
  {
  }

  lemma TableLoUpper(i: bv8)
    requires 128 <= i
    ensures TableCrcLo(i) as bv16 == EightShifts(i as bv16) >> 8
  {
  }

  lemma TableEntry(i: bv8)
    ensures TableCrcHi(i) as bv16 == Shift8(i as bv16) & 0xFF
    ensures TableCrcLo(i) as bv16 == Shift8(i as bv16) >> 8
  {
    Shift8IsEightShifts(i as bv16);
    if i < 128 {
      TableHiLower(i);
      if i < 8 {
        TableLoFirst(i);
      } else if i < 16 {
        TableLoSecond(i);
      } else if i < 32 {
        TableLoSecondRow(i);
      } else {
        TableLoLower(i);
      }
    } else {
      TableHiUpper(i);
      TableLoUpper(i);
    }
  }

  // ----- the register is linear over exclusive or

  lemma ShiftXorEven(a: bv16, b: bv16)
    requires a & 1 == 0 && b & 1 == 0
    ensures Shift(a ^ b) == Shift(a) ^ Shift(b)
  {
  }

  lemma ShiftXorMixed(a: bv16, b: bv16)
    requires a & 1 == 0 && b & 1 == 1
    ensures Shift(a ^ b) == Shift(a) ^ Shift(b)
  {
  }

  lemma ShiftXorOdd(a: bv16, b: bv16)
    requires a & 1 == 1 && b & 1 == 1
    ensures Shift(a ^ b) == Shift(a) ^ Shift(b)
  {
  }

  lemma XorCommutes(a: bv16, b: bv16)
    ensures a ^ b == b ^ a
  {
  }

  lemma ShiftOfXor(a: bv16, b: bv16, x: bv16)
    requires x == a ^ b
    ensures Shift(x) == Shift(a) ^ Shift(b)
  {
    if a & 1 == 0 && b & 1 == 0 {
      ShiftXorEven(a, b);
    } else if a & 1 == 0 {
      ShiftXorMixed(a, b);
    } else if b & 1 == 0 {
      ShiftXorMixed(b, a);
      XorCommutes(a, b);
      XorCommutes(Shift(a), Shift(b));
    } else {
      ShiftXorOdd(a, b);
    }
  }

  lemma {:induction false} ShiftsOfXor(a: bv16, b: bv16, n: nat, x: bv16, y: bv16, z: bv16)
    requires x == Shifts(a ^ b, n) && y == Shifts(a, n) && z == Shifts(b, n)
    ensures x == y ^ z
    decreases n
  {
    if n > 0 {
      var x', y', z' := Shifts(a ^ b, n - 1), Shifts(a, n - 1), Shifts(b, n - 1);
      ShiftsOfXor(a, b, n - 1, x', y', z');
      assert x == Shift(x');
      ShiftOfXor(y', z', x');
    }
  }

  lemma Shift8OfXor(a: bv16, b: bv16, x: bv16)
    requires x == a ^ b
    ensures Shift8(x) == Shift8(a) ^ Shift8(b)
  {
    ShiftsOfXor(a, b, 8, Shift8(x), Shift8(a), Shift8(b));
  }

  // ----- the byte-wise loop

  lemma HighByteShiftsDown(h: bv16)
    requires h & 0xFF == 0
    ensures EightShifts(h) == h >> 8
  {
  }

  lemma SplitRegister(x: bv16, h: bv16, k: bv16, f: bv16, t: bv16)
    requires x == h ^ k && h & 0xFF == 0
    requires f == Shift8(x) && t == Shift8(k)
    ensures f == (h >> 8) ^ t
  {
    Shift8OfXor(h, k, x);
    Shift8IsEightShifts(h);
    HighByteShiftsDown(h);
  }

  lemma SplitIndex(c: bv16, b: bv8)
    ensures c ^ (b as bv16) == (c & 0xFF00) ^ ((LowByte(c) ^ b) as bv16)
    ensures (c & 0xFF00) >> 8 == c >> 8
  {
  }

  lemma FeedByteSplit(c: bv16, b: bv8, i: bv8, f: bv16, t: bv16)
    requires i == LowByte(c) ^ b
    requires f == FeedByte(c, b) && t == Shift8(i as bv16)
    ensures f == (c >> 8) ^ t
  {
    SplitIndex(c, b);
    SplitRegister(c ^ (b as bv16), c & 0xFF00, i as bv16, f, t);
  }

  lemma JoinBytes(c: bv16, t: bv16, f: bv16, hi: bv8, lo: bv8)
    requires f == (c >> 8) ^ t
    requires hi as bv16 == t & 0xFF && lo as bv16 == t >> 8
    ensures LowByte(f) == HighByte(c) ^ hi
    ensures HighByte(f) == lo
  {
  }

  lemma EntryStep(c: bv16, b: bv8, i: bv8, t: bv16, f: bv16, hi: bv8, lo: bv8)
    requires i == LowByte(c) ^ b
    requires f == FeedByte(c, b) && t == Shift8(i as bv16)
    requires hi as bv16 == t & 0xFF && lo as bv16 == t >> 8
    ensures LowByte(f) == HighByte(c) ^ hi
    ensures HighByte(f) == lo
  {
    FeedByteSplit(c, b, i, f, t);
    JoinBytes(c, t, f, hi, lo);
  }

  /** One pass of the loop of `crc16`: `crcHi` holds the low byte of the register, `crcLo` the high one. */
  lemma TableStep(c: bv16, b: bv8, i: bv8, f: bv16, hi: bv8, lo: bv8)
    requires i == LowByte(c) ^ b
    requires f == FeedByte(c, b) && hi == TableCrcHi(i) && lo == TableCrcLo(i)
    ensures LowByte(f) == HighByte(c) ^ hi
    ensures HighByte(f) == lo
  {
    TableEntry(i);
    EntryStep(c, b, i, Shift8(i as bv16), f, hi, lo);
  }

  /** The register after a prefix of a message. */
  function Register(s: seq<byte>): bv16 {
    Feed(0xFFFF, Raw(s))
  }

  lemma RegisterStep(s: seq<byte>, j: nat)
    requires j < |s|
    ensures Register(s[..j + 1]) == FeedByte(Register(s[..j]), s[j] as bv8)
  {
    assert Raw(s[..j + 1])[..j] == Raw(s[..j]);
  }

  lemma RegisterInit()
    ensures LowByte(Register([])) == 0xFF && HighByte(Register([])) == 0xFF
  {
  }

  lemma LoopStep(s: seq<byte>, j: nat, crcHi: bv8, crcLo: bv8, i: bv8, hi: bv8, lo: bv8)
    requires j < |s| && crcHi == LowByte(Register(s[..j])) && crcLo == HighByte(Register(s[..j]))
    requires i == crcHi ^ (s[j] as bv8)
    requires hi == TableCrcHi(i) && lo == TableCrcLo(i)
    ensures crcLo ^ hi == LowByte(Register(s[..j + 1])) && lo == HighByte(Register(s[..j + 1]))
  {
    RegisterStep(s, j);
    TableStep(Register(s[..j]), s[j] as bv8, i, Register(s[..j + 1]), hi, lo);
  }

  /** `crc16`: the two-table loop computes the bit-by-bit CRC of the buffer. */
  method Crc16Loop(buffer: array<byte>, bufferLength: nat) returns (crc: word)
    requires bufferLength <= buffer.Length
    ensures crc == Crc16(buffer[..bufferLength])
  {
    var crcHi: bv8 := 0xFF;
    var crcLo: bv8 := 0xFF;
    var j := 0;
    ghost var s := buffer[..bufferLength];
    assert s[..0] == [];
    RegisterInit();
    while j < bufferLength
      invariant 0 <= j <= bufferLength
      invariant crcHi == LowByte(Register(s[..j]))
      invariant crcLo == HighByte(Register(s[..j]))
    {
      var i := crcHi ^ (buffer[j] as bv8);
      var hi, lo := TableCrcHi(i), TableCrcLo(i);
      LoopStep(s, j, crcHi, crcLo, i, hi, lo);
      crcHi := crcLo ^ hi;
      crcLo := lo;
      j := j + 1;
    }
    assert s[..j] == s;
    crc := Word(crcHi as int, crcLo as int);
  }
}
