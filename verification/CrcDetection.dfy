/**
 What the CRC of an RTU frame detects.  A frame passes the check exactly when the register fed with the
 whole frame ends at zero, and the register is linear: so a corrupted frame passes exactly when the error
 pattern alone drives the zero register back to zero.
 */
module CrcDetection {
  import opened Bytes
  import opened Crc

  /** `_modbus_rtu_send_msg_pre`: the message followed by its CRC. */
  function Sealed(m: seq<byte>): seq<byte> {
    m + [Hi(Crc16(m)), Lo(Crc16(m))]
  }

  /** `_modbus_rtu_check_integrity`: the last two bytes are the CRC of the rest. */
  predicate IntegrityOk(f: seq<byte>) {
    && 2 <= |f|
    && Crc16(f[..|f| - 2]) == Word(f[|f| - 2], f[|f| - 1])
  }

  lemma SealedIsOk(m: seq<byte>)
    ensures IntegrityOk(Sealed(m))
  {
    assert Sealed(m)[..|m|] == m;
  }

  // ----- the CRC of a whole valid frame is zero, and only of a valid one

  lemma ResidueOfTwo(c: bv16, x: bv8, y: bv8)
    ensures EightShifts(EightShifts(c ^ (x as bv16)) ^ (y as bv16)) == 0 <==>
            x == LowByte(c) && y == HighByte(c)
  {
  }

  lemma FeedIsEight(c: bv16, b: bv8)
    ensures FeedByte(c, b) == EightShifts(c ^ (b as bv16))
  {
    Shift8IsEightShifts(c ^ (b as bv16));
  }

  lemma FeedTwo(c: bv16, x: bv8, y: bv8)
    ensures FeedByte(FeedByte(c, x), y) == EightShifts(EightShifts(c ^ (x as bv16)) ^ (y as bv16))
  {
    hide FeedByte, EightShifts;
    FeedIsEight(c, x);
    FeedIsEight(FeedByte(c, x), y);
  }

  lemma WordParts(a: byte, b: byte, x: byte, y: byte)
    ensures Word(a, b) == Word(x, y) <==> a == x && b == y
  {
  }

  lemma BitsRoundTrip(b: bv8)
    ensures (b as int) as bv8 == b
  {
  }

  lemma ByteBits(x: byte, b: bv8)
    ensures x == b as int <==> x as bv8 == b
  {
    ByteRoundTrip(x);
    BitsRoundTrip(b);
  }

  lemma IntegrityIffBytes(f: seq<byte>, n: nat, lo: byte, hi: byte)
    requires |f| == n + 2
    requires lo == LowByte(Register(f[..n])) as int && hi == HighByte(Register(f[..n])) as int
    ensures IntegrityOk(f) <==> f[n] == lo && f[n + 1] == hi
  {
    WordParts(lo, hi, f[n], f[n + 1]);
  }

  lemma SameBytes(x: byte, y: byte, lo: bv8, hi: bv8, xb: bv8, yb: bv8)
    requires xb == x as bv8 && yb == y as bv8
    ensures x == lo as int && y == hi as int <==> xb == lo && yb == hi
  {
    ByteBits(x, lo);
    ByteBits(y, hi);
  }

  lemma IntegrityIffResidueZero(f: seq<byte>)
    requires 2 <= |f|
    ensures IntegrityOk(f) <==> Register(f) == 0
  {
    var n := |f| - 2;
    var c := Register(f[..n]);
    var x, y := f[n] as bv8, f[n + 1] as bv8;
    IntegrityIffBytes(f, n, LowByte(c) as int, HighByte(c) as int);
    SameBytes(f[n], f[n + 1], LowByte(c), HighByte(c), x, y);
    ResidueOfFrame(f, n, c, x, y);
  }

  lemma ResidueOfFrame(f: seq<byte>, n: nat, c: bv16, x: bv8, y: bv8)
    requires |f| == n + 2 && c == Register(f[..n]) && x == f[n] as bv8 && y == f[n + 1] as bv8
    ensures Register(f) == 0 <==> x == LowByte(c) && y == HighByte(c)
  {
    assert Register(f) == FeedByte(FeedByte(c, x), y) by {
      assert f[..n + 2] == f;
      RegisterStep(f, n);
      RegisterStep(f, n + 1);
    }
    FeedTwo(c, x, y);
    ResidueOfTwo(c, x, y);
  }

  // ----- linearity over whole messages

  function Xor(a: seq<bv8>, b: seq<bv8>): (r: seq<bv8>)
    requires |a| == |b|
    ensures |r| == |a|
  {
    seq(|a|, i requires 0 <= i < |a| => a[i] ^ b[i])
  }

  lemma Regroup(c: bv16, d: bv16, x: bv8, y: bv8)
    ensures (c ^ d) ^ ((x ^ y) as bv16) == (c ^ (x as bv16)) ^ (d ^ (y as bv16))
  {
  }

  lemma FeedByteOfXor(c: bv16, d: bv16, e: bv16, x: bv8, y: bv8, z: bv8, p: bv16, q: bv16, r: bv16)
    requires e == c ^ d && z == x ^ y
    requires p == FeedByte(e, z) && q == FeedByte(c, x) && r == FeedByte(d, y)
    ensures p == q ^ r
  {
    Regroup(c, d, x, y);
    Shift8Linear(c ^ (x as bv16), d ^ (y as bv16), e ^ (z as bv16), p, q, r);
  }

  lemma Shift8Linear(a: bv16, b: bv16, x: bv16, p: bv16, q: bv16, r: bv16)
    requires x == a ^ b
    requires p == Shift8(x) && q == Shift8(a) && r == Shift8(b)
    ensures p == q ^ r
  {
    ShiftsOfXor(a, b, 8, p, q, r);
  }

  lemma {:induction false} FeedOfXor(b: bv16, c: bv16, d: bv16, m: seq<bv8>, e: seq<bv8>, x: bv16, y: bv16, z: bv16)
    requires |m| == |e| && b == c ^ d
    requires x == Feed(b, Xor(m, e)) && y == Feed(c, m) && z == Feed(d, e)
    ensures x == y ^ z
    decreases |m|
  {
    if m != [] {
      var n := |m| - 1;
      assert Xor(m, e)[..n] == Xor(m[..n], e[..n]);
      var x', y', z' := Feed(b, Xor(m[..n], e[..n])), Feed(c, m[..n]), Feed(d, e[..n]);
      FeedOfXor(b, c, d, m[..n], e[..n], x', y', z');
      FeedByteOfXor(y', z', x', m[n], e[n], Xor(m, e)[n], x, y, z);
    }
  }

  /** The bits in which two frames of one length differ. */
  function Error(f: seq<byte>, f': seq<byte>): seq<bv8>
    requires |f| == |f'|
  {
    Xor(Raw(f), Raw(f'))
  }

  lemma XorTwice(x: bv8, y: bv8)
    ensures x ^ (x ^ y) == y
  {
  }

  lemma XorError(f: seq<byte>, f': seq<byte>)
    requires |f| == |f'|
    ensures Xor(Raw(f), Error(f, f')) == Raw(f')
  {
    forall i | 0 <= i < |f|
      ensures Xor(Raw(f), Error(f, f'))[i] == Raw(f')[i]
    {
      XorTwice(f[i] as bv8, f'[i] as bv8);
    }
  }

  lemma XorZero(x: bv16, y: bv16, z: bv16)
    requires x == y ^ z && y == 0
    ensures x == z
  {
  }

  lemma ErrorRegister(f: seq<byte>, f': seq<byte>, x: bv16, y: bv16, z: bv16)
    requires |f| == |f'|
    requires x == Register(f') && y == Register(f) && z == Feed(0, Error(f, f'))
    ensures x == y ^ z
  {
    XorError(f, f');
    FeedOfXor(0xFFFF, 0xFFFF, 0, Raw(f), Error(f, f'), x, y, z);
  }

  /** A corrupted frame passes the check exactly when its error pattern has a zero register. */
  lemma CorruptedPassesIff(f: seq<byte>, f': seq<byte>)
    requires |f| == |f'| && IntegrityOk(f)
    ensures IntegrityOk(f') <==> Feed(0, Error(f, f')) == 0
  {
    IntegrityIffResidueZero(f);
    IntegrityIffResidueZero(f');
    var x, y, z := Register(f'), Register(f), Feed(0, Error(f, f'));
    ErrorRegister(f, f', x, y, z);
    XorZero(x, y, z);
  }

  // ----- zero bytes neither create nor destroy a nonzero register

  lemma EightShiftsZero(c: bv16)
    ensures EightShifts(c) == 0 <==> c == 0
  {
  }

  lemma FeedByteZero(c: bv16)
    ensures FeedByte(c, 0) == 0 <==> c == 0
  {
    Shift8IsEightShifts(c);
    EightShiftsZero(c);
  }

  lemma {:induction false} FeedZeros(c: bv16, m: seq<bv8>, k: nat)
    requires k <= |m|
    requires forall i :: k <= i < |m| ==> m[i] == 0
    ensures Feed(c, m) == 0 <==> Feed(c, m[..k]) == 0
    decreases |m|
  {
    if k == |m| {
      assert m[..k] == m;
    } else {
      var n := |m| - 1;
      assert m[..n][..k] == m[..k];
      FeedZeros(c, m[..n], k);
      FeedByteZero(Feed(c, m[..n]));
    }
  }

  // ----- bursts of at most sixteen bits

  function BitMask(j: nat): bv8
    requires j < 8
  {
    match j
    case 0 => 0x01
    case 1 => 0x02
    case 2 => 0x04
    case 3 => 0x08
    case 4 => 0x10
    case 5 => 0x20
    case 6 => 0x40
    case 7 => 0x80
  }

  /** Bit `q` of a message in the order a serial line sends it: bytes in order, low bit first. */
  predicate BitSet(m: seq<bv8>, q: nat)
    requires q < 8 * |m|
  {
    m[q / 8] & BitMask(q % 8) != 0
  }

  /** Every set bit is one of sixteen consecutive bits, of which `p` is the first. */
  ghost predicate Burst(e: seq<bv8>, p: nat) {
    forall q {:trigger BitSet(e, q)} :: 0 <= q < 8 * |e| && BitSet(e, q) ==> p <= q < p + 16
  }

  /** The `s` low bits of a byte. */
  function LowMask(s: nat): bv8
    requires s < 8
  {
    BitMask(s) - 1
  }

  lemma ClearBits(x: bv8, s: nat)
    requires s < 8
    ensures (forall j :: 0 <= j < 8 ==> x & BitMask(j) == 0) ==> x == 0
    ensures (forall j :: 0 <= j < s ==> x & BitMask(j) == 0) ==> x & LowMask(s) == 0
    ensures (forall j :: s <= j < 8 ==> x & BitMask(j) == 0) ==> x & !LowMask(s) == 0
  {
    assert BitMask(0) == 1 && BitMask(1) == 2 && BitMask(2) == 4 && BitMask(3) == 8;
    assert BitMask(4) == 16 && BitMask(5) == 32 && BitMask(6) == 64 && BitMask(7) == 128;
  }

  lemma BurstBits(x: bv8, y: bv8, z: bv8, mask: bv8)
    requires mask & (mask + 1) == 0
    requires x & mask == 0 && z & !mask == 0
    requires x != 0 || y != 0 || z != 0
    ensures EightShifts(EightShifts(EightShifts(x as bv16) ^ (y as bv16)) ^ (z as bv16)) != 0
  {
  }

  lemma LowMaskShape(s: nat)
    requires s < 8
    ensures LowMask(s) & (LowMask(s) + 1) == 0
  {
  }

  lemma FeedThree(x: bv8, y: bv8, z: bv8, r: bv16, s: bv16)
    requires r == EightShifts(x as bv16) && s == EightShifts(r ^ (y as bv16))
    ensures FeedByte(FeedByte(FeedByte(0, x), y), z) == EightShifts(s ^ (z as bv16))
  {
    FeedFirst(x, r);
    hide FeedByte, EightShifts;
    FeedIsEight(r, y);
    FeedIsEight(s, z);
  }

  lemma FeedFirst(x: bv8, r: bv16)
    requires r == EightShifts(x as bv16)
    ensures FeedByte(0, x) == r
  {
    hide EightShifts;
    ZeroXor(x as bv16);
    Shift8IsEightShifts(x as bv16);
  }

  lemma ZeroXor(c: bv16)
    ensures 0 ^ c == c
  {
  }

  lemma BurstBytes(x: bv8, y: bv8, z: bv8, s: nat)
    requires s < 8
    requires x & LowMask(s) == 0 && z & !LowMask(s) == 0
    requires x != 0 || y != 0 || z != 0
    ensures FeedByte(FeedByte(FeedByte(0, x), y), z) != 0
  {
    LowMaskShape(s);
    BurstBits(x, y, z, LowMask(s));
    var r := EightShifts(x as bv16);
    FeedThree(x, y, z, r, EightShifts(r ^ (y as bv16)));
  }

  /** Where the bytes of a burst that starts at bit `8 * k + s` can be nonzero. */
  lemma BurstShape(e: seq<bv8>, k: nat, s: nat, i: nat)
    requires s < 8 && Burst(e, 8 * k + s) && i < |e|
    ensures i < k || k + 2 < i ==> e[i] == 0
    ensures i == k ==> e[i] & LowMask(s) == 0
    ensures i == k + 2 ==> e[i] & !LowMask(s) == 0
  {
    forall j | 0 <= j < 8 && !(8 * k + s <= 8 * i + j < 8 * k + s + 16)
      ensures e[i] & BitMask(j) == 0
    {
      var q := 8 * i + j;
      assert q / 8 == i && q % 8 == j;
      assert !BitSet(e, q);
    }
    ClearBits(e[i], s);
  }

  // ----- parity

  predicate IsOdd(c: bv16) {
    c & 1 == 1
  }

  function Half(c: bv16): bv16 {
    c >> 1
  }

  /** The number of ones among the `n` low bits is odd. */
  predicate OddParity(c: bv16, n: nat) {
    n != 0 && IsOdd(c) != OddParity(Half(c), n - 1)
  }

  lemma HalveXor(c: bv16, d: bv16, e: bv16)
    requires e == c ^ d
    ensures Half(e) == Half(c) ^ Half(d)
    ensures IsOdd(e) == (IsOdd(c) != IsOdd(d))
  {
  }

  lemma {:induction false} OddParityOfXor(c: bv16, d: bv16, e: bv16, n: nat)
    requires e == c ^ d
    ensures OddParity(e, n) == (OddParity(c, n) != OddParity(d, n))
    decreases n
  {
    if n > 0 {
      var c', d', e' := Half(c), Half(d), Half(e);
      assert e' == c' ^ d' by { HalveXor(c, d, e); }
      OddParityOfXor(c', d', e', n - 1);
      assert IsOdd(e) == (IsOdd(c) != IsOdd(d)) by { HalveXor(c, d, e); }
    }
  }

  /** The polynomial has an odd number of ones, which is why a shift keeps the parity. */
  lemma PolynomialParity()
    ensures OddParity(0xA001, 16)
  {
    assert !OddParity(0x0005, 3);
    assert !OddParity(0x0014, 5);
    assert !OddParity(0x0050, 7);
    assert !OddParity(0x0140, 9);
    assert !OddParity(0x0500, 11);
    assert !OddParity(0x1400, 13);
    assert !OddParity(0x5000, 15);
  }

  predicate FitsIn(c: bv16, n: nat) {
    if n == 0 then c == 0 else FitsIn(Half(c), n - 1)
  }

  lemma {:induction false} SpareBit(c: bv16, n: nat)
    requires FitsIn(c, n)
    ensures OddParity(c, n + 1) == OddParity(c, n)
    decreases n
  {
    if n > 0 {
      SpareBit(Half(c), n - 1);
    }
  }

  lemma FitsInSixteen(c: bv16)
    ensures FitsIn(c, 16)
  {
    assert FitsIn(c >> 15, 1);
    assert FitsIn(c >> 13, 3);
    assert FitsIn(c >> 11, 5);
    assert FitsIn(c >> 9, 7);
    assert FitsIn(c >> 7, 9);
    assert FitsIn(c >> 5, 11);
    assert FitsIn(c >> 3, 13);
    assert FitsIn(c >> 1, 15);
  }

  lemma ShiftByParity(c: bv16)
    ensures IsOdd(c) ==> Shift(c) == Half(c) ^ 0xA001
    ensures !IsOdd(c) ==> Shift(c) == Half(c)
  {
  }

  lemma ShiftKeepsParity(c: bv16)
    ensures OddParity(Shift(c), 16) == OddParity(c, 16)
  {
    FitsInSixteen(c);
    SpareBit(Half(c), 15);
    ShiftByParity(c);
    if IsOdd(c) {
      PolynomialParity();
      OddParityOfXor(Half(c), 0xA001, Shift(c), 16);
    }
  }

  lemma {:induction false} ShiftsKeepParity(c: bv16, n: nat)
    ensures OddParity(Shifts(c, n), 16) == OddParity(c, 16)
    decreases n
  {
    if n > 0 {
      ShiftsKeepParity(c, n - 1);
      ShiftKeepsParity(Shifts(c, n - 1));
    }
  }

  lemma ParityStep(c: bv16, b: bv16, x: bv16, n: nat)
    requires x == c ^ b && n == 16
    ensures OddParity(Shift8(x), n) == (OddParity(c, n) != OddParity(b, n))
  {
    OddParityOfXor(c, b, x, n);
    ShiftsKeepParity(x, 8);
  }

  /** The number of ones in a message is odd. */
  predicate OddOnes(m: seq<bv8>, n: nat) {
    m != [] && OddOnes(m[..|m| - 1], n) != OddParity(m[|m| - 1] as bv16, n)
  }

  lemma FeedLast(m: seq<bv8>, c: bv16, b: bv16, x: bv16, f: bv16)
    requires m != [] && f == Feed(0, m)
    requires c == Feed(0, m[..|m| - 1]) && b == m[|m| - 1] as bv16 && x == c ^ b
    ensures f == Shift8(x)
  {
  }

  lemma OddOnesLast(m: seq<bv8>, n: nat, m': seq<bv8>, b: bv16)
    requires m != [] && m' == m[..|m| - 1] && b == m[|m| - 1] as bv16
    ensures OddOnes(m, n) == (OddOnes(m', n) != OddParity(b, n))
  {
  }

  /** The register keeps the parity of everything it was fed. */
  lemma {:induction false} ParityOfFeed(m: seq<bv8>, n: nat)
    requires n == 16
    ensures OddParity(Feed(0, m), n) == OddOnes(m, n)
    decreases |m|
  {
    if m == [] {
      ZeroParity(n);
    } else {
      var m', b := m[..|m| - 1], m[|m| - 1] as bv16;
      var c := Feed(0, m');
      assert OddParity(Feed(0, m), n) == (OddParity(c, n) != OddParity(b, n)) by {
        FeedLast(m, c, b, c ^ b, Feed(0, m));
        ParityStep(c, b, c ^ b, n);
      }
      assert OddParity(c, n) == OddOnes(m', n) by { ParityOfFeed(m', n); }
      OddOnesLast(m, n, m', b);
    }
  }

  lemma {:induction false} ZeroParity(n: nat)
    ensures !OddParity(0, n)
    decreases n
  {
    if n > 0 {
      ZeroParity(n - 1);
    }
  }

  // ----- the detection theorems

  lemma XorIsZero(x: bv8, y: bv8)
    ensures x ^ y == 0 <==> x == y
  {
  }

  lemma SameRawByte(x: byte, y: byte, p: bv8, q: bv8)
    requires p == x as bv8 && q == y as bv8
    ensures p == q <==> x == y
  {
    ByteRoundTrip(x);
    ByteRoundTrip(y);
  }

  lemma RawInjective(f: seq<byte>, f': seq<byte>, i: nat, p: bv8, q: bv8)
    requires |f| == |f'| && i < |f|
    requires p == Raw(f)[i] && q == Raw(f')[i]
    ensures p == q <==> f[i] == f'[i]
  {
    SameRawByte(f[i], f'[i], p, q);
  }

  lemma ErrorOfRaw(f: seq<byte>, f': seq<byte>, i: nat, p: bv8, q: bv8)
    requires |f| == |f'| && i < |f|
    requires p == Raw(f)[i] && q == Raw(f')[i]
    ensures Error(f, f')[i] == p ^ q
  {
  }

  lemma ErrorAt(f: seq<byte>, f': seq<byte>, i: nat)
    requires |f| == |f'| && i < |f|
    ensures Error(f, f')[i] == 0 <==> f[i] == f'[i]
  {
    var p, q := Raw(f)[i], Raw(f')[i];
    RawInjective(f, f', i, p, q);
    ErrorOfRaw(f, f', i, p, q);
    XorIsZero(p, q);
  }

  lemma {:induction false} ZeroPrefix(e: seq<bv8>, k: nat)
    requires k <= |e| && forall i :: 0 <= i < k ==> e[i] == 0
    ensures Feed(0, e[..k]) == 0
  {
    FeedZeros(0, e[..k], 0);
    assert e[..k][..0] == [];
  }

  lemma FeedStep(c: bv16, e: seq<bv8>, j: nat)
    requires j < |e|
    ensures Feed(c, e[..j + 1]) == FeedByte(Feed(c, e[..j]), e[j])
  {
    assert e[..j + 1][..j] == e[..j];
  }

  function AtOrZero(e: seq<bv8>, i: nat): bv8 {
    if i < |e| then e[i] else 0
  }

  /** The register after a burst that starts in byte `k`, whether or not the message ends inside it. */
  lemma FeedBurst(e: seq<bv8>, k: nat)
    requires k < |e|
    requires forall i :: 0 <= i < |e| && (i < k || k + 2 < i) ==> e[i] == 0
    ensures Feed(0, e) == 0 <==>
            FeedByte(FeedByte(FeedByte(0, AtOrZero(e, k)), AtOrZero(e, k + 1)), AtOrZero(e, k + 2)) == 0
  {
    ZeroPrefix(e, k);
    FeedStep(0, e, k);
    var r1 := FeedByte(0, e[k]);
    if k + 1 == |e| {
      assert e[..k + 1] == e;
      FeedByteZero(r1);
      FeedByteZero(FeedByte(r1, 0));
    } else {
      FeedStep(0, e, k + 1);
      var r2 := FeedByte(r1, e[k + 1]);
      if k + 2 == |e| {
        assert e[..k + 2] == e;
        FeedByteZero(r2);
      } else {
        FeedStep(0, e, k + 2);
        FeedZeros(0, e, k + 3);
      }
    }
  }

  lemma BurstNonzero(e: seq<bv8>, p: nat)
    requires Burst(e, p)
    requires exists i :: 0 <= i < |e| && e[i] != 0
    ensures Feed(0, e) != 0
  {
    hide Burst, LowMask, FeedByte, Feed;
    var k, s := p / 8, p % 8;
    forall i | 0 <= i < |e|
      ensures i < k || k + 2 < i ==> e[i] == 0
    {
      BurstShape(e, k, s, i);
    }
    var i :| 0 <= i < |e| && e[i] != 0;
    assert k < |e|;
    BurstShape(e, k, s, k);
    if k + 2 < |e| {
      BurstShape(e, k, s, k + 2);
    }
    FeedBurst(e, k);
    BurstBytes(AtOrZero(e, k), AtOrZero(e, k + 1), AtOrZero(e, k + 2), s);
  }

  /** Any corruption of at most sixteen consecutive bits is rejected, in a frame of any length. */
  lemma BurstDetected(f: seq<byte>, f': seq<byte>, p: nat)
    requires |f| == |f'| && f != f'
    requires IntegrityOk(f) && Burst(Error(f, f'), p)
    ensures !IntegrityOk(f')
  {
    var i :| 0 <= i < |f| && f[i] != f'[i];
    ErrorAt(f, f', i);
    BurstNonzero(Error(f, f'), p);
    CorruptedPassesIff(f, f');
  }

  /** Any corruption confined to two adjacent bytes, the CRC bytes included, is rejected. */
  lemma AdjacentBytesDetected(f: seq<byte>, f': seq<byte>, k: nat)
    requires |f| == |f'| && f != f'
    requires IntegrityOk(f)
    requires forall i :: 0 <= i < |f| && i != k && i != k + 1 ==> f[i] == f'[i]
    ensures !IntegrityOk(f')
  {
    var e := Error(f, f');
    forall q {:trigger BitSet(e, q)} | 0 <= q < 8 * |e| && BitSet(e, q)
      ensures 8 * k <= q < 8 * k + 16
    {
      ErrorAt(f, f', q / 8);
      NoBitOfZero(BitMask(q % 8));
    }
    BurstDetected(f, f', 8 * k);
  }

  lemma NoBitOfZero(mask: bv8)
    ensures (0 as bv8) & mask == 0
  {
  }
}
