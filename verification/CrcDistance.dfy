/**
 Two flipped bits.  A frame with two flipped bits passes the check only if the register returns to its
 starting point in as many steps as the bits are apart, and within the length of a frame it never does.
 With the parity argument: no corruption of one, two or three bits passes.
 */
module CrcDistance {
  import opened Bytes
  import opened Crc
  import opened CrcDetection

  // ----- the register never comes back to 1 within 2055 steps

  lemma {:induction false} ShiftsCompose(c: bv16, a: nat, b: nat)
    ensures Shifts(Shifts(c, a), b) == Shifts(c, a + b)
    decreases b
  {
    if b > 0 {
      ShiftsCompose(c, a, b - 1);
    }
  }

  /** A single bit of the low byte. */
  predicate SingleBit(c: bv16) {
    || c == 0x0001 || c == 0x0002 || c == 0x0004 || c == 0x0008
    || c == 0x0010 || c == 0x0020 || c == 0x0040 || c == 0x0080
  }

  lemma ShiftReaches(c: bv16, m: bv16)
    requires m & 0x8000 == 0 && Shift(c) == m
    ensures c == m << 1
  {
  }

  /** Only single bits of the low byte reach 1 in fewer than eight steps. */
  lemma ReachesOne(c: bv16, b: nat)
    requires b < 8 && Shifts(c, b) == 1
    ensures SingleBit(c)
  {
    if b > 0 { ShiftReaches(Shifts(c, b - 1), 0x0001); }
    if b > 1 { ShiftReaches(Shifts(c, b - 2), 0x0002); }
    if b > 2 { ShiftReaches(Shifts(c, b - 3), 0x0004); }
    if b > 3 { ShiftReaches(Shifts(c, b - 4), 0x0008); }
    if b > 4 { ShiftReaches(Shifts(c, b - 5), 0x0010); }
    if b > 5 { ShiftReaches(Shifts(c, b - 6), 0x0020); }
    if b > 6 { ShiftReaches(Shifts(c, b - 7), 0x0040); }
    assert Shifts(c, 0) == c;
  }

  /** The register that starts at 1 is not a single low bit after any of the first `n` bytes. */
  ghost predicate Avoids(n: nat) {
    forall a :: 1 <= a <= n ==> !SingleBit(Shifts(1, 8 * a))
  }

  lemma OneByteOn(n: nat, c: bv16, d: bv16)
    requires Avoids(n) && Shifts(1, 8 * n) == c && EightShifts(c) == d && !SingleBit(d)
    ensures Avoids(n + 1) && Shifts(1, 8 * (n + 1)) == d
  {
    hide SingleBit;
    Shift8IsEightShifts(c);
    ShiftsCompose(1, 8 * n, 8);
  }

  /** Eight bytes of the orbit. */
  lemma Extend(n: nat, c0: bv16, c1: bv16, c2: bv16, c3: bv16, c4: bv16, c5: bv16, c6: bv16, c7: bv16, c8: bv16)
    requires Avoids(n) && Shifts(1, 8 * n) == c0
    requires EightShifts(c0) == c1 && EightShifts(c1) == c2 && EightShifts(c2) == c3 && EightShifts(c3) == c4
    requires EightShifts(c4) == c5 && EightShifts(c5) == c6 && EightShifts(c6) == c7 && EightShifts(c7) == c8
    requires !SingleBit(c1) && !SingleBit(c2) && !SingleBit(c3) && !SingleBit(c4)
    requires !SingleBit(c5) && !SingleBit(c6) && !SingleBit(c7) && !SingleBit(c8)
    ensures Avoids(n + 8) && Shifts(1, 8 * (n + 8)) == c8
  {
    hide EightShifts, SingleBit, Avoids, Shifts;
    OneByteOn(n, c0, c1);
    OneByteOn(n + 1, c1, c2);
    OneByteOn(n + 2, c2, c3);
    OneByteOn(n + 3, c3, c4);
    OneByteOn(n + 4, c4, c5);
    OneByteOn(n + 5, c5, c6);
    OneByteOn(n + 6, c6, c7);
    OneByteOn(n + 7, c7, c8);
  }

  lemma Orbit0(n: nat)
    requires Avoids(n) && Shifts(1, 8 * n) == 0x0001
    ensures Avoids(n + 32) && Shifts(1, 8 * (n + 32)) == 0xAC01
  {
    hide Shifts, Avoids;
    Extend(n, 0x0001, 0xC0C1, 0x9001, 0xC051, 0xFC01, 0xC03D, 0xD101, 0xC010, 0xCCC1);
    Extend(n + 8, 0xCCC1, 0x900D, 0xC551, 0xFC04, 0xC3FD, 0x8102, 0xC100, 0x00C1, 0x90C1);
    Extend(n + 16, 0x90C1, 0x9051, 0xFC51, 0xFC3D, 0xD13D, 0xD110, 0xCCD0, 0x9CCD, 0x955D);
    Extend(n + 24, 0x955D, 0xF954, 0xFFF8, 0x82FE, 0x8003, 0x01C0, 0x5001, 0xC091, 0xAC01);
  }

  lemma Orbit1(n: nat)
    requires Avoids(n) && Shifts(1, 8 * n) == 0xAC01
    ensures Avoids(n + 32) && Shifts(1, 8 * (n + 32)) == 0xF0C1
  {
    hide Shifts, Avoids;
    Extend(n, 0xAC01, 0xC06D, 0xED01, 0xC02C, 0xDDC1, 0x901C, 0xC991, 0xAC08, 0xC6AD);
    Extend(n + 8, 0xC6AD, 0xBD07, 0xC2FC, 0x41C2, 0x91C0, 0x5091, 0xAC91, 0xAC6D, 0xED6D);
    Extend(n + 16, 0xED6D, 0xED2C, 0xDDEC, 0x8DDC, 0x998C, 0xA598, 0xAAA4, 0xBBAB, 0xBFFA);
    Extend(n + 24, 0xBFFA, 0x433F, 0x1003, 0x0150, 0x3C01, 0xC0FD, 0x8101, 0xC040, 0xF0C1);
  }

  lemma Orbit2(n: nat)
    requires Avoids(n) && Shifts(1, 8 * n) == 0xF0C1
    ensures Avoids(n + 32) && Shifts(1, 8 * (n + 32)) == 0xDB6D
  {
    hide Shifts, Avoids;
    Extend(n, 0xF0C1, 0x9031, 0xD451, 0xFC15, 0xCF3D, 0xD10E, 0xC450, 0x3CC4, 0x933D);
    Extend(n + 8, 0x933D, 0xD152, 0xFD50, 0x3CFD, 0x81FD, 0x8140, 0xF080, 0xA0F1, 0x8461);
    Extend(n + 16, 0x8461, 0xE845, 0xF329, 0xDE32, 0xD55F, 0x3895, 0x6FF8, 0x826E, 0xEC03);
    Extend(n + 24, 0xEC03, 0x01AC, 0x7D01, 0xC0BC, 0xB1C1, 0x9070, 0xE491, 0xAC25, 0xDB6D);
  }

  lemma Orbit3(n: nat)
    requires Avoids(n) && Shifts(1, 8 * n) == 0xDB6D
    ensures Avoids(n + 32) && Shifts(1, 8 * (n + 32)) == 0x9C01
  {
    hide Shifts, Avoids;
    Extend(n, 0xDB6D, 0xED1A, 0xCB6C, 0x2DCB, 0x976C, 0x2D97, 0xAE6C, 0x2DAE, 0xBCAC);
    Extend(n + 8, 0xBCAC, 0x7DBC, 0xB17C, 0xE1B0, 0xB4E0, 0x88B5, 0xB749, 0xF676, 0xE677);
    Extend(n + 16, 0xE677, 0x26A6, 0x7AA6, 0x7AFA, 0x43FA, 0x43C3, 0x5103, 0x0111, 0x0CC1);
    Extend(n + 24, 0x0CC1, 0x90CD, 0x9551, 0xFC54, 0xFFFD, 0x813E, 0xD000, 0x00D0, 0x9C01);
  }

  lemma Orbit4(n: nat)
    requires Avoids(n) && Shifts(1, 8 * n) == 0x9C01
    ensures Avoids(n + 32) && Shifts(1, 8 * (n + 32)) == 0xEBC1
  {
    hide Shifts, Avoids;
    Extend(n, 0x9C01, 0xC05D, 0xF901, 0xC038, 0xD2C1, 0x9013, 0xCDD1, 0x5C0D, 0xC59D);
    Extend(n + 8, 0xC59D, 0xA904, 0xC3A8, 0xBEC2, 0x913F, 0x10D1, 0x5CD0, 0x9C5D, 0xF95D);
    Extend(n + 16, 0xF95D, 0xF938, 0xD2F8, 0x82D3, 0x9DC3, 0x51DD, 0x5991, 0xAC98, 0xAAAD);
    Extend(n + 24, 0xAAAD, 0xBD6B, 0xEFFC, 0x41EF, 0x8C00, 0x008C, 0xA501, 0xC064, 0xEBC1);
  }

  lemma Orbit5(n: nat)
    requires Avoids(n) && Shifts(1, 8 * n) == 0xEBC1
    ensures Avoids(n + 32) && Shifts(1, 8 * (n + 32)) == 0xD75D
  {
    hide Shifts, Avoids;
    Extend(n, 0xEBC1, 0x902A, 0xDF11, 0x0C1F, 0xC84D, 0x3508, 0xC634, 0xD7C7, 0x9296);
    Extend(n + 8, 0x9296, 0x6E12, 0x0DEE, 0x4C8D, 0x658C, 0xA564, 0xEBA4, 0xBBEA, 0x8F3A);
    Extend(n + 16, 0x8F3A, 0x130F, 0x0453, 0x3D44, 0x333D, 0xD1F2, 0x8550, 0x3C85, 0xA3FD);
    Extend(n + 24, 0xA3FD, 0x8162, 0xE900, 0x00E9, 0x8EC1, 0x904F, 0xF4D1, 0x5C34, 0xD75D);
  }

  lemma Orbit6(n: nat)
    requires Avoids(n) && Shifts(1, 8 * n) == 0xD75D
    ensures Avoids(n + 32) && Shifts(1, 8 * (n + 32)) == 0x9ADA
  {
    hide Shifts, Avoids;
    Extend(n, 0xD75D, 0xF916, 0xCE78, 0x22CE, 0x94A3, 0x79D4, 0x5F79, 0xE29E, 0xA863);
    Extend(n + 8, 0xA863, 0x29E8, 0x4E29, 0xDE8F, 0xA49F, 0x68E4, 0x4B68, 0xEE4A, 0xF76F);
    Extend(n + 16, 0xF76F, 0x2CB7, 0x766C, 0x2D76, 0xE6AC, 0x7DE6, 0x8AFC, 0x418A, 0xA7C0);
    Extend(n + 24, 0xA7C0, 0x50A7, 0xBA11, 0x0C7A, 0xE38D, 0x6523, 0xD924, 0x1BD9, 0x9ADA);
  }

  lemma Orbit7(n: nat)
    requires Avoids(n) && Shifts(1, 8 * n) == 0x9ADA
    ensures Avoids(n + 32) && Shifts(1, 8 * (n + 32)) == 0xFCC1
  {
    hide Shifts, Avoids;
    Extend(n, 0x9ADA, 0x9B1B, 0x0BDB, 0x5B4B, 0x371B, 0x0B77, 0x264B, 0x3766, 0x2AB7);
    Extend(n + 8, 0x2AB7, 0x766A, 0x2FF6, 0x46AF, 0x7C06, 0x02FC, 0x4102, 0xC1C0, 0x50C1);
    Extend(n + 16, 0x50C1, 0x9091, 0xAC51, 0xFC6D, 0xED3D, 0xD12C, 0xDDD0, 0x9CDC, 0x999D);
    Extend(n + 24, 0x999D, 0xA958, 0xFAA8, 0xBEFB, 0x83FF, 0x40C3, 0x5100, 0x0051, 0xFCC1);
  }

  lemma Orbit(n: nat)
    requires n == 0
    ensures Avoids(n + 256)
  {
    assert Avoids(n) && Shifts(1, n) == 1;
    hide Shifts, Avoids, EightShifts;
    Orbit0(n);
    Orbit1(n + 32);
    Orbit2(n + 64);
    Orbit3(n + 96);
    Orbit4(n + 128);
    Orbit5(n + 160);
    Orbit6(n + 192);
    Orbit7(n + 224);
  }

  /** Two bits of one frame are less than 2056 apart. */
  lemma NeverReturns(d: nat)
    requires 8 <= d < 2056
    ensures Shifts(1, d) != 1
  {
    hide SingleBit, Shifts;
    Orbit(0);
    var a, b := d / 8, d % 8;
    assert d == 8 * a + b;
    ShiftsCompose(1, 8 * a, b);
    if Shifts(1, d) == 1 {
      ReachesOne(Shifts(1, 8 * a), b);
    }
  }

  // ----- messages with two bits

  lemma MaskReachesOne(j: nat)
    requires j < 8
    ensures Shifts(BitMask(j) as bv16, j) == 1
  {
    var m := BitMask(j) as bv16;
    assert Shifts(m, 0) == m;
    if j >= 1 { assert Shifts(m, 1) == m >> 1; }
    if j >= 2 { assert Shifts(m, 2) == m >> 2; }
    if j >= 3 { assert Shifts(m, 3) == m >> 3; }
    if j >= 4 { assert Shifts(m, 4) == m >> 4; }
    if j >= 5 { assert Shifts(m, 5) == m >> 5; }
    if j >= 6 { assert Shifts(m, 6) == m >> 6; }
    if j >= 7 { assert Shifts(m, 7) == m >> 7; }
  }

  predicate HasBit(x: bv8, j: nat)
    requires j < 8
  {
    x & BitMask(j) != 0
  }

  lemma NoBitByte(x: bv8)
    requires forall i :: 0 <= i < 8 ==> !HasBit(x, i)
    ensures x == 0
  {
    forall i | 0 <= i < 8 ensures x & BitMask(i) == 0 {
      assert !HasBit(x, i);
    }
    ClearBits(x, 0);
  }

  lemma OneBitByte(x: bv8, j: nat)
    requires j < 8 && forall i :: 0 <= i < 8 ==> (HasBit(x, i) <==> i == j)
    ensures x == BitMask(j)
  {
    assert HasBit(x, 0) <==> 0 == j;
    assert HasBit(x, 1) <==> 1 == j;
    assert HasBit(x, 2) <==> 2 == j;
    assert HasBit(x, 3) <==> 3 == j;
    assert HasBit(x, 4) <==> 4 == j;
    assert HasBit(x, 5) <==> 5 == j;
    assert HasBit(x, 6) <==> 6 == j;
    assert HasBit(x, 7) <==> 7 == j;
    assert BitMask(0) == 1 && BitMask(1) == 2 && BitMask(2) == 4 && BitMask(3) == 8;
    assert BitMask(4) == 16 && BitMask(5) == 32 && BitMask(6) == 64 && BitMask(7) == 128;
  }

  lemma FeedZero(c: bv16)
    ensures FeedByte(c, 0) == Shifts(c, 8)
  {
    assert c ^ 0 == c;
  }

  /** Zero bytes only shift the register on. */
  lemma {:induction false} ZeroRun(c: bv16, e: seq<bv8>, lo: nat, hi: nat)
    requires lo <= hi <= |e| && forall i :: lo <= i < hi ==> e[i] == 0
    ensures Feed(c, e[..hi]) == Shifts(Feed(c, e[..lo]), 8 * (hi - lo))
    decreases hi
  {
    hide Feed, FeedByte, Shifts;
    if lo < hi {
      ZeroRun(c, e, lo, hi - 1);
      FeedStep(c, e, hi - 1);
      FeedZero(Feed(c, e[..hi - 1]));
      ShiftsCompose(Feed(c, e[..lo]), 8 * (hi - 1 - lo), 8);
    } else {
      NoShifts(Feed(c, e[..lo]));
    }
  }

  lemma NoShifts(c: bv16)
    ensures Shifts(c, 0) == c
  {
  }

  /** The register after the byte with the first bit: 1, shifted on. */
  lemma FirstBit(j: nat)
    requires j < 8
    ensures FeedByte(0, BitMask(j)) == Shifts(1, 8 - j)
  {
    var m := BitMask(j) as bv16;
    assert 0 ^ m == m;
    MaskReachesOne(j);
    ShiftsCompose(m, j, 8 - j);
  }

  /** The byte with the second bit clears the register only if the register would reach 1 with that bit. */
  lemma SecondBit(c: bv16, j: nat)
    requires j < 8 && FeedByte(c, BitMask(j)) == 0
    ensures Shifts(c, j) == 1
  {
    var m := BitMask(j) as bv16;
    Shift8IsEightShifts(c ^ m);
    EightShiftsZero(c ^ m);
    XorIsZeroWord(c, m);
    MaskReachesOne(j);
  }

  lemma XorIsZeroWord(x: bv16, y: bv16)
    ensures x ^ y == 0 <==> x == y
  {
  }

  lemma TwoBits(e: seq<bv8>, k1: nat, j1: nat, k2: nat, j2: nat)
    requires k1 < k2 < |e| && j1 < 8 && j2 < 8
    requires e[k1] == BitMask(j1) && e[k2] == BitMask(j2)
    requires forall i :: 0 <= i < |e| && i != k1 && i != k2 ==> e[i] == 0
    requires 8 <= 8 * (k2 - k1) + j2 - j1 < 2056
    ensures Feed(0, e) != 0
  {
    hide Feed, FeedByte, Shifts, BitMask;
    ZeroPrefix(e, k1);
    FeedStep(0, e, k1);
    FirstBit(j1);
    ZeroRun(0, e, k1 + 1, k2);
    ShiftsCompose(1, 8 - j1, 8 * (k2 - (k1 + 1)));
    var t: nat := 8 * (k2 - k1) - j1;
    assert Feed(0, e[..k2]) == Shifts(1, t);
    FeedStep(0, e, k2);
    FeedZeros(0, e, k2 + 1);
    if Feed(0, e) == 0 {
      SecondBit(Shifts(1, t), j2);
      ShiftsCompose(1, t, j2);
      NeverReturns(t + j2);
    }
  }

  // ----- the bits in which two frames differ

  /** The positions of the bits that are set. */
  function Flips(m: seq<bv8>): set<nat> {
    set q: nat | 0 <= q < 8 * |m| && BitSet(m, q)
  }

  lemma FlipAt(e: seq<bv8>, i: nat, j: nat)
    requires i < |e| && j < 8
    ensures HasBit(e[i], j) <==> 8 * i + j in Flips(e)
  {
    hide BitMask;
    var q := 8 * i + j;
    assert q / 8 == i && q % 8 == j;
    assert BitSet(e, q) <==> q in Flips(e);
  }

  /** A byte with no bit set, or with a single one. */
  lemma ByteOfFlips(e: seq<bv8>, k1: nat, j1: nat, k2: nat, j2: nat, i: nat)
    requires k1 < k2 < |e| && j1 < 8 && j2 < 8 && i < |e|
    requires Flips(e) == {8 * k1 + j1, 8 * k2 + j2}
    ensures e[i] == if i == k1 then BitMask(j1) else if i == k2 then BitMask(j2) else 0
  {
    hide BitMask, Flips, HasBit;
    forall j | 0 <= j < 8
      ensures HasBit(e[i], j) <==> (i == k1 && j == j1) || (i == k2 && j == j2)
    {
      FlipAt(e, i, j);
    }
    if i == k1 {
      OneBitByte(e[i], j1);
    } else if i == k2 {
      OneBitByte(e[i], j2);
    } else {
      NoBitByte(e[i]);
    }
  }

  lemma FarFlips(e: seq<bv8>, k1: nat, j1: nat, k2: nat, j2: nat)
    requires k1 < k2 < |e| <= 256 && j1 < 8 && j2 < 8 && 8 <= 8 * (k2 - k1) + j2 - j1
    requires Flips(e) == {8 * k1 + j1, 8 * k2 + j2}
    ensures Feed(0, e) != 0
  {
    hide Feed, BitMask, Flips;
    forall i | 0 <= i < |e|
      ensures e[i] == if i == k1 then BitMask(j1) else if i == k2 then BitMask(j2) else 0
    {
      ByteOfFlips(e, k1, j1, k2, j2, i);
    }
    TwoBits(e, k1, j1, k2, j2);
  }

  lemma NearFlips(e: seq<bv8>, q1: nat, q2: nat)
    requires q1 < q2 < 8 * |e| && q2 < q1 + 16
    requires Flips(e) == {q1, q2}
    ensures Feed(0, e) != 0
  {
    hide Feed, BitMask;
    assert BitSet(e, q1) by { assert q1 in Flips(e); }
    forall q | 0 <= q < 8 * |e| && BitSet(e, q)
      ensures q1 <= q < q1 + 16
    {
      assert q in Flips(e);
    }
    NoBitOfZero(BitMask(q1 % 8));
    assert e[q1 / 8] != 0;
    BurstNonzero(e, q1);
  }

  lemma TwoFlips(e: seq<bv8>, q1: nat, q2: nat)
    requires q1 < q2 < 8 * |e| && |e| <= 256
    requires Flips(e) == {q1, q2}
    ensures Feed(0, e) != 0
  {
    hide Feed, BitMask, Flips;
    if q2 < q1 + 16 {
      NearFlips(e, q1, q2);
    } else {
      FarFlips(e, q1 / 8, q1 % 8, q2 / 8, q2 % 8);
    }
  }

  // ----- their number, and the parity of the register

  function FlipsBelow(m: seq<bv8>, n: nat): set<nat>
    requires n <= 8 * |m|
  {
    set q: nat | 0 <= q < n && BitSet(m, q)
  }

  lemma OneMore(m: seq<bv8>, n: nat)
    requires n < 8 * |m|
    ensures |FlipsBelow(m, n + 1)| == |FlipsBelow(m, n)| + if BitSet(m, n) then 1 else 0
  {
    assert FlipsBelow(m, n + 1) == if BitSet(m, n) then FlipsBelow(m, n) + {n} else FlipsBelow(m, n);
  }

  /** The number of ones in a byte, bit by bit. */
  function OnesIn(x: bv8, j: nat): nat
    requires j <= 8
  {
    if j == 0 then 0 else OnesIn(x, j - 1) + if x & BitMask(j - 1) != 0 then 1 else 0
  }

  lemma {:induction false} FlipsInByte(m: seq<bv8>, k: nat, j: nat)
    requires k < |m| && j <= 8
    ensures |FlipsBelow(m, 8 * k + j)| == |FlipsBelow(m, 8 * k)| + OnesIn(m[k], j)
    decreases j
  {
    hide BitMask;
    if j > 0 {
      FlipsInByte(m, k, j - 1);
      var q := 8 * k + (j - 1);
      assert q / 8 == k && q % 8 == j - 1;
      OneMore(m, q);
    }
  }

  predicate OddIn(x: bv8, j: nat)
    requires j <= 8
  {
    j != 0 && OddIn(x, j - 1) != (x & BitMask(j - 1) != 0)
  }

  lemma {:induction false} OddInCounts(x: bv8, j: nat)
    requires j <= 8
    ensures OddIn(x, j) <==> OnesIn(x, j) % 2 == 1
    decreases j
  {
    hide BitMask;
    if j > 0 {
      OddInCounts(x, j - 1);
    }
  }

  /** The bits of a byte, as the parity of the register meets them. */
  lemma HalfBits(x: bv8, c: bv16, j: nat)
    requires j < 8 && c == (x as bv16) >> j
    ensures IsOdd(c) <==> x & BitMask(j) != 0
    ensures Half(c) == (x as bv16) >> (j + 1)
    ensures j == 7 ==> Half(c) == 0
  {
  }

  /** Parity counted from the low end and from the high end. */
  lemma {:induction false} ParityFrom(x: bv8, c: bv16, j: nat, n: nat)
    requires j <= 8 && n == 16 && c == (x as bv16) >> j
    ensures OddIn(x, 8) == (OddIn(x, j) != OddParity(c, n - j))
    decreases 8 - j
  {
    hide BitMask, IsOdd, Half;
    if j == 8 {
      assert c == 0;
      ZeroParity(n - j);
    } else {
      HalfBits(x, c, j);
      ParityFrom(x, Half(c), j + 1, n);
    }
  }

  lemma ByteParity(x: bv8, c: bv16, n: nat)
    requires n == 16 && c == x as bv16
    ensures OddParity(c, n) <==> OnesIn(x, 8) % 2 == 1
  {
    hide OddIn, OddParity, OnesIn;
    NoBitsYet(x);
    ParityFrom(x, c, 0, n);
    OddInCounts(x, 8);
  }

  lemma NoBitsYet(x: bv8)
    ensures !OddIn(x, 0) && (x as bv16) >> 0 == x as bv16
  {
  }

  lemma FlipsOfPrefix(m: seq<bv8>, k: nat)
    requires k <= |m|
    ensures FlipsBelow(m, 8 * k) == Flips(m[..k])
    ensures k == |m| ==> FlipsBelow(m, 8 * k) == Flips(m)
  {
    hide BitMask;
    forall q: nat | q < 8 * k
      ensures BitSet(m, q) == BitSet(m[..k], q)
    {
      assert m[q / 8] == m[..k][q / 8];
    }
  }

  lemma {:induction false} FlipsParity(m: seq<bv8>, n: nat)
    requires n == 16
    ensures OddOnes(m, n) <==> |Flips(m)| % 2 == 1
    decreases |m|
  {
    hide BitMask, OddParity, FlipsBelow;
    if m == [] {
      assert Flips(m) == {};
    } else {
      var k := |m| - 1;
      var m' := m[..k];
      FlipsParity(m', n);
      FlipsOfPrefix(m, k);
      FlipsInByte(m, k, 8);
      FlipsOfPrefix(m, k + 1);
      ByteParity(m[k], m[k] as bv16, n);
    }
  }

  // ----- the detection theorems

  /** Any odd number of flipped bits is rejected, in a frame of any length. */
  lemma OddFlipsDetected(f: seq<byte>, f': seq<byte>)
    requires |f| == |f'| && IntegrityOk(f)
    requires |Flips(Error(f, f'))| % 2 == 1
    ensures !IntegrityOk(f')
  {
    hide Flips, Feed, IntegrityOk;
    var e := Error(f, f');
    FlipsParity(e, 16);
    ParityOfFeed(e, 16);
    ZeroParity(16);
    CorruptedPassesIff(f, f');
  }

  lemma PairOf(s: set<nat>) returns (q1: nat, q2: nat)
    requires |s| == 2
    ensures q1 < q2 && s == {q1, q2}
  {
    var x :| x in s;
    assert |s - {x}| == 1;
    var y :| y in s - {x};
    assert |s - {x} - {y}| == 0;
    assert s == {x, y};
    q1, q2 := if x < y then x else y, if x < y then y else x;
  }

  /** Any one, two or three flipped bits are rejected, in any frame the RTU backend can carry. */
  lemma ThreeFlipsDetected(f: seq<byte>, f': seq<byte>)
    requires |f| == |f'| <= 256 && IntegrityOk(f)
    requires 1 <= |Flips(Error(f, f'))| <= 3
    ensures !IntegrityOk(f')
  {
    hide Feed, IntegrityOk, BitSet;
    var e := Error(f, f');
    if |Flips(e)| == 2 {
      var q1, q2 := PairOf(Flips(e));
      assert q2 in Flips(e);
      TwoFlips(e, q1, q2);
      CorruptedPassesIff(f, f');
    } else {
      OddFlipsDetected(f, f');
    }
  }
}
