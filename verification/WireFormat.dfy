/**
 What goes over the wire, in numbers: the bytes of every request, of the frame around it, and how much the receiver
 takes.  The lemmas here say what the named function codes, lengths and limits amount to.
 */
module WireFormat {
  import opened Bytes
  import opened Bits
  import opened BitPacking
  import opened Crc
  import opened CrcDetection
  import opened Protocol
  import opened Receiver
  import opened ClientModel
  import opened EndToEnd
  import opened Runs

  // ----- bits and numbers

  /** A field of two bytes, high byte first. */
  function Field(s: seq<byte>, i: nat): word
    requires i + 1 < |s|
  {
    256 * s[i] as int + s[i + 1] as int
  }

  function Entry(bits: seq<byte>, q: nat): nat {
    if q < |bits| && bits[q] != 0 then 1 else 0
  }

  /** The byte that carries the entries from `q` on, the first in its lowest bit. */
  function EightEntries(bits: seq<byte>, q: nat): nat {
    Entry(bits, q) + 2 * Entry(bits, q + 1) + 4 * Entry(bits, q + 2) + 8 * Entry(bits, q + 3) +
    16 * Entry(bits, q + 4) + 32 * Entry(bits, q + 5) + 64 * Entry(bits, q + 6) + 128 * Entry(bits, q + 7)
  }

  /** Bit `j` of a byte, by division. */
  function Bit(b: byte, j: nat): (v: nat)
    requires j < 8
    ensures v <= 1
  {
    if j == 0 then b % 2
    else if j == 1 then b / 2 % 2
    else if j == 2 then b / 4 % 2
    else if j == 3 then b / 8 % 2
    else if j == 4 then b / 16 % 2
    else if j == 5 then b / 32 % 2
    else if j == 6 then b / 64 % 2
    else b / 128
  }

  lemma {:induction false} FourBits(b: nat)
    ensures BitOf(b, 0) <==> b % 2 == 1
    ensures BitOf(b, 1) <==> b / 2 % 2 == 1
    ensures BitOf(b, 2) <==> b / 4 % 2 == 1
    ensures BitOf(b, 3) <==> b / 8 % 2 == 1
  {
    assert BitOf(b, 1) == BitOf(b / 2, 0);
    assert BitOf(b, 2) == BitOf(b / 2, 1) == BitOf(b / 2 / 2, 0);
    assert BitOf(b, 3) == BitOf(b / 2, 2) == BitOf(b / 2 / 2, 1) == BitOf(b / 2 / 2 / 2, 0);
  }

  lemma UpperBits(b: nat)
    ensures BitOf(b, 4) == BitOf(b / 16, 0) && BitOf(b, 5) == BitOf(b / 16, 1)
    ensures BitOf(b, 6) == BitOf(b / 16, 2) && BitOf(b, 7) == BitOf(b / 16, 3)
  {
    forall j: nat | 4 <= j < 8
      ensures BitOf(b, j) == BitOf(b / 16, j - 4)
    {
      assert BitOf(b, j) == BitOf(b / 2, j - 1) == BitOf(b / 2 / 2, j - 2);
      assert BitOf(b / 2 / 2, j - 2) == BitOf(b / 2 / 2 / 2, j - 3) == BitOf(b / 2 / 2 / 2 / 2, j - 4);
      assert b / 2 / 2 / 2 / 2 == b / 16;
    }
  }

  lemma UpperHalf(b: byte)
    ensures b / 16 / 2 == b / 32 && b / 16 / 4 == b / 64 && b / 16 / 8 == b / 128 < 2
  {
  }

  lemma BitIsBitOf(b: byte, j: nat)
    requires j < 8
    ensures Bit(b, j) == 1 <==> BitOf(b, j)
  {
    hide BitOf;
    FourBits(b);
    UpperBits(b);
    FourBits(b / 16);
    UpperHalf(b);
  }

  lemma PackedInNumbers(bits: seq<byte>, i: nat)
    ensures PackedByte(bits, i) == EightEntries(bits, 8 * i)
  {
    var q := 8 * i;
    assert BitsFrom(bits, q + 6, 2) == Entry(bits, q + 6) + 2 * Entry(bits, q + 7);
    assert BitsFrom(bits, q + 4, 4) == Entry(bits, q + 4) + 2 * Entry(bits, q + 5) + 4 * BitsFrom(bits, q + 6, 2);
    assert BitsFrom(bits, q + 2, 6) == Entry(bits, q + 2) + 2 * Entry(bits, q + 3) + 4 * BitsFrom(bits, q + 4, 4);
    assert BitsFrom(bits, q, 8) == Entry(bits, q) + 2 * Entry(bits, q + 1) + 4 * BitsFrom(bits, q + 2, 6);
  }

  // ----- requests

  /** The limits of the nine calls. */
  lemma TooManyIff(r: Request)
    ensures r.ReadBits? || r.ReadInputBits? ==> (TooMany(r) <==> 2000 < r.nb)
    ensures r.ReadRegisters? || r.ReadInputRegisters? ==> (TooMany(r) <==> 125 < r.nb)
    ensures r.WriteBit? || r.WriteRegister? ==> !TooMany(r)
    ensures r.WriteBits? ==> (TooMany(r) <==> 1968 < |r.bits|)
    ensures r.WriteRegisters? ==> (TooMany(r) <==> 123 < |r.values|)
    ensures r.WriteAndReadRegisters? ==> (TooMany(r) <==> 121 < |r.src| || 125 < r.readNb)
  {
  }

  /** `pdu` is a request of function `f` with two fields. */
  predicate TwoFields(pdu: seq<byte>, f: byte, a: word, b: word) {
    5 <= |pdu| && pdu[0] == f && pdu[1] == a / 256 && pdu[2] == a % 256 && pdu[3] == b / 256 && pdu[4] == b % 256
  }

  /** From byte `at` on, `pdu` carries the coils `bits`, to its end. */
  predicate CarriesBits(pdu: seq<byte>, at: nat, bits: seq<byte>) {
    && |pdu| == at + (|bits| + 7) / 8
    && forall i :: 0 <= i < (|bits| + 7) / 8 ==> pdu[at + i] == EightEntries(bits, 8 * i)
  }

  /** From byte `at` on, `pdu` carries the registers `values`, high byte first, to its end. */
  predicate CarriesWords(pdu: seq<byte>, at: nat, values: seq<word>) {
    && |pdu| == at + 2 * |values|
    && forall i :: 0 <= i < |values| ==> pdu[at + 2 * i] == values[i] / 256 && pdu[at + 2 * i + 1] == values[i] % 256
  }

  /** The bytes of a request, byte by byte. */
  predicate RequestIs(r: Request, pdu: seq<byte>)
    requires !TooMany(r)
  {
    match r
    case ReadBits(addr, nb) => TwoFields(pdu, 1, addr, nb) && |pdu| == 5
    case ReadInputBits(addr, nb) => TwoFields(pdu, 2, addr, nb) && |pdu| == 5
    case ReadRegisters(addr, nb) => TwoFields(pdu, 3, addr, nb) && |pdu| == 5
    case ReadInputRegisters(addr, nb) => TwoFields(pdu, 4, addr, nb) && |pdu| == 5
    case WriteBit(addr, status) => TwoFields(pdu, 5, addr, if status then 0xFF00 else 0) && |pdu| == 5
    case WriteRegister(addr, value) => TwoFields(pdu, 6, addr, value) && |pdu| == 5
    case WriteBits(addr, bits) =>
      TwoFields(pdu, 15, addr, |bits|) && 6 <= |pdu| && pdu[5] == (|bits| + 7) / 8 && CarriesBits(pdu, 6, bits)
    case WriteRegisters(addr, values) =>
      TwoFields(pdu, 16, addr, |values|) && 6 <= |pdu| && pdu[5] == 2 * |values| && CarriesWords(pdu, 6, values)
    case WriteAndReadRegisters(writeAddr, src, readAddr, readNb) =>
      && TwoFields(pdu, 23, readAddr, readNb) && 10 <= |pdu|
      && pdu[5] == writeAddr / 256 && pdu[6] == writeAddr % 256 && pdu[7] == |src| / 256 && pdu[8] == |src| % 256
      && pdu[9] == 2 * |src| && CarriesWords(pdu, 10, src)
  }

  lemma CountInNumbers(nb: nat)
    ensures ByteCount(nb) == (nb + 7) / 8
  {
  }

  lemma WordBytesCarried(head: seq<byte>, values: seq<word>)
    ensures CarriesWords(head + WordBytes(values), |head|, values)
  {
    var ws := WordBytes(values);
    forall i | 0 <= i < |values|
      ensures ws[2 * i] == values[i] / 256 && ws[2 * i + 1] == values[i] % 256
    {
      assert 2 * i / 2 == i && (2 * i + 1) / 2 == i;
    }
  }

  lemma PackedCarried(head: seq<byte>, bits: seq<byte>)
    ensures CarriesBits(head + Pack(bits), |head|, bits)
  {
    hide PackedByte, EightEntries;
    CountInNumbers(|bits|);
    forall i | 0 <= i < (|bits| + 7) / 8
      ensures Pack(bits)[i] == EightEntries(bits, 8 * i)
    {
      PackedInNumbers(bits, i);
    }
  }

  /** The bytes of every request a client function sends. */
  lemma RequestBytes(r: Request)
    requires !TooMany(r)
    ensures RequestIs(r, RequestPdu(r))
  {
    hide ByteCount, Pack, WordBytes, CarriesWords, CarriesBits;
    var pdu := RequestPdu(r);
    if r.WriteBits? {
      CountInNumbers(|r.bits|);
      PackedCarried(pdu[..6], r.bits);
      assert pdu == pdu[..6] + Pack(r.bits);
    } else if r.WriteRegisters? {
      WordBytesCarried(pdu[..6], r.values);
      assert pdu == pdu[..6] + WordBytes(r.values);
    } else if r.WriteAndReadRegisters? {
      WordBytesCarried(pdu[..10], r.src);
      assert pdu == pdu[..10] + WordBytes(r.src);
    }
  }

  lemma UnpackInNumbers(bytes: seq<byte>, nb: nat)
    requires (nb + 7) / 8 <= |bytes|
    ensures ByteCount(nb) <= |bytes|
    ensures forall k :: 0 <= k < nb ==> Unpack(bytes, nb)[k] == Bit(bytes[k / 8], k % 8)
  {
    hide BitOf, Bit;
    CountInNumbers(nb);
    forall k | 0 <= k < nb
      ensures Unpack(bytes, nb)[k] == Bit(bytes[k / 8], k % 8)
    {
      BitIsBitOf(bytes[k / 8], k % 8);
    }
  }

  lemma WordsInNumbers(bytes: seq<byte>, nb: nat)
    requires 2 * nb <= |bytes|
    ensures forall k :: 0 <= k < nb ==> WordsOf(bytes, nb)[k] == Field(bytes, 2 * k)
  {
  }

  // ----- frames

  /** Over TCP, the number in bytes 4 and 5 is that of the bytes that follow it. */
  lemma TcpFrameBytes(tid: word, slave: byte, pdu: seq<byte>)
    requires |pdu| <= 253
    ensures var f := Frame(Tcp, tid, slave, pdu); var n := |pdu| + 1;
            && f == [tid / 256, tid % 256, 0, 0, n / 256, n % 256, slave] + pdu
            && 256 * f[4] + f[5] == |f| - 6
  {
  }

  /** Over RTU, the register of the checksum follows, low byte first. */
  lemma RtuFrameBytes(tid: word, slave: byte, pdu: seq<byte>)
    requires |pdu| <= 253
    ensures var c := Register([slave] + pdu);
            Frame(Rtu, tid, slave, pdu) == [slave] + pdu + [(c & 0xFF) as bv8 as int, (c >> 8) as bv8 as int]
  {
    hide Register;
    RegisterBytes(Register([slave] + pdu));
  }

  lemma RegisterBytes(c: bv16)
    ensures Hi(Word(LowByte(c) as int, HighByte(c) as int)) == (c & 0xFF) as bv8 as int
    ensures Lo(Word(LowByte(c) as int, HighByte(c) as int)) == (c >> 8) as bv8 as int
  {
  }

  lemma ByteStep(s: seq<byte>, b: byte, v: bv8, c: bv16, d: bv16)
    requires v == b as bv8 && Register(s) == c && d == EightShifts(c ^ (v as bv16))
    ensures Register(s + [b]) == d
  {
    hide EightShifts;
    var t := s + [b];
    RegisterStep(t, |s|);
    assert t[..|s|] == s && t[..|s| + 1] == t;
    Shift8IsEightShifts(c ^ (v as bv16));
  }

  /** The last two bytes are those of the register over the others, low byte first. */
  predicate GoodChecksum(m: seq<byte>) {
    && 2 <= |m|
    && var c := Register(m[..|m| - 2]);
       m[|m| - 2] == (c & 0xFF) as bv8 as int && m[|m| - 1] == (c >> 8) as bv8 as int
  }

  lemma GoodChecksumIff(m: seq<byte>)
    ensures CheckIntegrity(Rtu, m) <==> GoodChecksum(m)
  {
    hide Register;
    if 2 <= |m| {
      var c := Register(m[..|m| - 2]);
      RegisterBytes(c);
      WordOfHiLo(Crc16(m[..|m| - 2]));
    }
  }

  /** Ten registers are read from slave 1: the checksum is C5 CD. */
  lemma ReadTenRegisters()
    ensures Frame(Rtu, 0, 1, [3, 0, 0, 0, 10]) == [1, 3, 0, 0, 0, 10, 0xC5, 0xCD]
  {
    hide Register, EightShifts;
    RegisterOfNothing();
    FirstSteps();
    ByteStep([], 1, 1, 0xFFFF, 0x807E);
    assert [] + [1] == [1] && [1] + [3] == [1, 3] && [1, 3] + [0] == [1, 3, 0];
    assert [1, 3, 0] + [0] == [1, 3, 0, 0] && [1, 3, 0, 0] + [0] == [1, 3, 0, 0, 0];
    ByteStep([1], 3, 3, 0x807E, 0x2140);
    ByteStep([1, 3], 0, 0, 0x2140, 0xF020);
    LastSteps();
    ByteStep([1, 3, 0], 0, 0, 0xF020, 0xD8F1);
    ByteStep([1, 3, 0, 0], 0, 0, 0xD8F1, 0x8419);
    ByteStep([1, 3, 0, 0, 0], 10, 10, 0x8419, 0xCDC5);
    assert [1] + [3, 0, 0, 0, 10] == [1, 3, 0, 0, 0] + [10];
    RtuFrameBytes(0, 1, [3, 0, 0, 0, 10]);
  }

  lemma RegisterOfNothing()
    ensures Register([]) == 0xFFFF
  {
  }

  lemma FirstSteps()
    ensures EightShifts(0xFFFF ^ 1) == 0x807E && EightShifts(0x807E ^ 3) == 0x2140
    ensures EightShifts(0x2140 ^ 0) == 0xF020
  {
  }

  lemma LastSteps()
    ensures EightShifts(0xF020 ^ 0) == 0xD8F1 && EightShifts(0xD8F1 ^ 0) == 0x8419
    ensures EightShifts(0x8419 ^ 10) == 0xCDC5
  {
  }

  // ----- how much the receiver takes

  /** How long a PDU is, from its own bytes. */
  predicate Shape(kind: Kind, pdu: seq<byte>) {
    && 1 <= |pdu|
    && var f := pdu[0];
       if kind.Indication? then
         if f <= 6 then |pdu| == 5
         else if f == 15 || f == 16 then 6 <= |pdu| && |pdu| - 6 == pdu[5]
         else if f == 23 then 10 <= |pdu| && |pdu| - 10 == pdu[9]
         else |pdu| == 1
       else if f == 5 || f == 6 || f == 15 || f == 16 then |pdu| == 5
       else if f <= 4 || f == 17 || f == 23 then 2 <= |pdu| && |pdu| - 2 == pdu[1]
       else |pdu| == 2
  }

  lemma ShapeIff(kind: Kind, pdu: seq<byte>)
    ensures Shape(kind, pdu) <==> Complete(kind, pdu)
  {
  }

  /** A message of either backend with a PDU of the right length, checksum or not. */
  predicate Whole(be: Backend, kind: Kind, m: seq<byte>) {
    if be.Rtu? then 3 < |m| <= 256 && Shape(kind, m[1..|m| - 2]) else 7 < |m| <= 260 && Shape(kind, m[7..])
  }

  lemma WholeParts(be: Backend, kind: Kind, m: seq<byte>)
    ensures Whole(be, kind, m) <==>
            be.HeaderLength() + be.ChecksumLength() < |m| <= be.MaxAduLength() && Complete(kind, PduOf(be, m))
  {
    hide Shape, Complete;
    if be.Rtu? && 3 < |m| {
      ShapeIff(kind, m[1..|m| - 2]);
    } else if be.Tcp? && 7 < |m| {
      assert PduOf(be, m) == m[7..];
      ShapeIff(kind, m[7..]);
    }
  }

  /** A message is received exactly if the stream begins with it, it is whole, and its checksum is good. */
  lemma ReceivesIff(be: Backend, kind: Kind, s: seq<byte>, m: seq<byte>)
    ensures Receive(be, kind, s) == Reception(Ok(m), |m|) <==>
            m <= s && Whole(be, kind, m) && (be.Rtu? ==> GoodChecksum(m))
    ensures Receive(be, kind, s).result == Ok(m) ==> Receive(be, kind, s).taken == |m|
  {
    hide Receive, Complete, IntegrityOk, Whole, GoodChecksum;
    WholeParts(be, kind, m);
    GoodChecksumIff(m);
    if m <= s && Whole(be, kind, m) && CheckIntegrity(be, m) {
      MessageIsReceived(be, kind, m, s[|m|..]);
      assert s == m + s[|m|..];
    }
    if Receive(be, kind, s).result == Ok(m) {
      ReceivedIsComplete(be, kind, s);
      assert m == s[..Receive(be, kind, s).taken];
    }
  }

  /** A message whose checksum is wrong is taken to its end. */
  lemma CorruptIsTaken(be: Backend, kind: Kind, s: seq<byte>, m: seq<byte>)
    requires m <= s && Whole(be, kind, m) && be.Rtu? && !GoodChecksum(m)
    ensures Receive(be, kind, s) == Reception(Err(BadCrc), |m|)
  {
    hide Complete, CheckIntegrity, Whole, GoodChecksum;
    WholeParts(be, kind, m);
    GoodChecksumIff(m);
    var h, pdu := be.HeaderLength(), PduOf(be, m);
    assert s[h..][..|pdu|] == pdu;
    CompleteKnown(kind, pdu, s[h..]);
    assert s[..|m|] == m;
  }

  lemma CompleteKnown(kind: Kind, pdu: seq<byte>, s: seq<byte>)
    requires Complete(kind, pdu) && |pdu| <= |s| && s[..|pdu|] == pdu
    ensures MetaKnown(kind, s) && PduLength(kind, s) == |pdu|
  {
    LengthFromPrefix(kind, s, |pdu|);
  }

  /** The PDU that begins with `s` announces more bytes than a message may have, and how much of it says so. */
  predicate Refused(kind: Kind, s: seq<byte>, n: nat) {
    && 1 <= |s|
    && if kind.Indication? then
         || ((s[0] == 15 || s[0] == 16) && n == 6 <= |s| && 247 < s[5])
         || (s[0] == 23 && n == 10 <= |s| && 243 < s[9])
       else
         (s[0] <= 4 || s[0] == 17 || s[0] == 23) && n == 2 <= |s| && 251 < s[1]
  }

  /** A message too long for either backend is refused as soon as its length is known. */
  lemma RefusedIff(be: Backend, kind: Kind, s: seq<byte>, n: nat)
    ensures var h := if be.Rtu? then 1 else 7;
            Receive(be, kind, s) == Reception(Err(BadData), h + n) <==> h <= |s| && Refused(kind, s[h..], n)
  {
    hide CheckIntegrity;
  }

  /** A framed PDU of the right length is taken, and no more. */
  lemma FrameIsTaken(be: Backend, kind: Kind, tid: word, slave: byte, pdu: seq<byte>, rest: seq<byte>)
    requires Shape(kind, pdu) && |pdu| <= 253
    ensures var f := Frame(be, tid, slave, pdu);
            Receive(be, kind, f + rest) == Reception(Ok(f), |f|)
  {
    hide Shape, Complete, Receive, Frame;
    ShapeIff(kind, pdu);
    FrameIsReceived(be, kind, tid, slave, pdu, rest);
  }

  /** Requests of function 7, of function 17, and of every function there is not, have one byte. */
  lemma OneByteRequest(be: Backend, tid: word, slave: byte, f: byte, rest: seq<byte>)
    requires 6 < f && f != 15 && f != 16 && f != 23
    ensures var m := Frame(be, tid, slave, [f]);
            Receive(be, Indication, m + rest) == Reception(Ok(m), |m|)
  {
    hide Receive, Frame;
    FrameIsTaken(be, Indication, tid, slave, [f], rest);
  }

  // ----- one call

  /** The message `f` carries the request `r` to unit `slave`, over TCP as transaction `tid`. */
  predicate Carries(be: Backend, tid: word, slave: byte, r: Request, f: seq<byte>)
    requires !TooMany(r)
  {
    if be.Rtu? then 3 < |f| <= 256 && f[0] == slave && RequestIs(r, f[1..|f| - 2]) && GoodChecksum(f)
    else
      && 7 < |f| <= 260 && f[..4] == [tid / 256, tid % 256, 0, 0] && Field(f, 4) == |f| - 6 && f[6] == slave
      && RequestIs(r, f[7..])
  }

  lemma RequestFrameCarries(be: Backend, tid: word, slave: byte, r: Request)
    requires !TooMany(r)
    ensures Carries(be, tid, slave, r, RequestFrame(be, tid, slave, r))
  {
    hide RequestPdu, RequestIs, GoodChecksum, Crc16, Complete, IntegrityOk;
    var pdu, f := RequestPdu(r), RequestFrame(be, tid, slave, r);
    RequestBytes(r);
    RequestIsComplete(r);
    FrameParts(be, tid, slave, pdu);
    if be.Rtu? {
      GoodChecksumIff(f);
      assert f[1..|f| - 2] == pdu;
    } else {
      TcpFrameBytes(tid, slave, pdu);
      assert f[7..] == pdu;
    }
  }

  /** A call that is not refused sends one message; over TCP the transaction ids count, modulo 65536. */
  lemma CallSends(w: World, r: Request)
    requires !w.online
    ensures Callable(w, r)
    ensures var w' := Call(w, r).0;
            if TooMany(r) then w' == w
            else
              && w'.tid == (if w.be.Rtu? then w.tid else (w.tid as int + 1) % 65536)
              && |w.up| <= |w'.up| && w'.up[..|w.up|] == w.up
              && Carries(w.be, w'.tid, w.clientSlave, r, w'.up[|w.up|..])
  {
    hide RequestPdu, RequestFrame, TooMany, Carries, Receive, ClientResult, Crc16;
    if !TooMany(r) {
      var w' := Call(w, r).0;
      var f := RequestFrame(w.be, w'.tid, w.clientSlave, r);
      RequestFrameCarries(w.be, w'.tid, w.clientSlave, r);
      assert w'.up == w.up + f;
      assert w'.up[|w.up|..] == f;
    }
  }
}
