/**
 What `modbus_reply` answers to a request and does to the tables, as a function of the tables, of the
 request's PDU and of what follows it in the request buffer (sections 6.1 to 6.6, 6.11, 6.12, 6.17 and 7 of
 the MODBUS Application Protocol V1.1b).
 */
module ServerModel {
  import opened Bytes
  import opened Bits
  import opened Crc
  import opened BitPacking
  import opened Protocol
  import opened Receiver

  /** The four tables of a `modbus_mapping_t`. */
  datatype Tables = Tables(bits: seq<byte>, inputBits: seq<byte>, registers: seq<word>, inputRegisters: seq<word>)

  /** A normal response PDU, an exception code, or nothing at all. */
  datatype Answer = Normal(pdu: seq<byte>) | Exception(code: byte) | Silence

  // ----- one function for each kind of request

  function ServeReadBits(table: seq<byte>, pdu: seq<byte>): Answer
    requires |pdu| == 5
  {
    var address, nb := WordAt(pdu, 1), WordAt(pdu, 3);
    if nb < 1 || MAX_READ_BITS < nb then Exception(ILLEGAL_DATA_VALUE)
    else if |table| < address + nb then Exception(ILLEGAL_DATA_ADDRESS)
    else Normal([pdu[0], ByteCount(nb)] + IoStatus(table[address..address + nb]))
  }

  function ServeReadRegisters(table: seq<word>, pdu: seq<byte>): Answer
    requires |pdu| == 5
  {
    var address, nb := WordAt(pdu, 1), WordAt(pdu, 3);
    if nb < 1 || MAX_READ_REGISTERS < nb then Exception(ILLEGAL_DATA_VALUE)
    else if |table| < address + nb then Exception(ILLEGAL_DATA_ADDRESS)
    else Normal([pdu[0], 2 * nb] + WordBytes(table[address..address + nb]))
  }

  function ServeWriteBit(table: seq<byte>, pdu: seq<byte>): (seq<byte>, Answer)
    requires |pdu| == 5
  {
    var address, data := WordAt(pdu, 1), WordAt(pdu, 3);
    if |table| <= address then (table, Exception(ILLEGAL_DATA_ADDRESS))
    else if data == 0xFF00 || data == 0 then (table[address := Unit(data != 0)], Normal(pdu))
    else (table, Exception(ILLEGAL_DATA_VALUE))
  }

  function ServeWriteRegister(table: seq<word>, pdu: seq<byte>): (seq<word>, Answer)
    requires |pdu| == 5
  {
    var address, data := WordAt(pdu, 1), WordAt(pdu, 3);
    if |table| <= address then (table, Exception(ILLEGAL_DATA_ADDRESS))
    else (table[address := data], Normal(pdu))
  }

  /** The range written by FC 15 or 16 is inside its table. */
  predicate InTable(size: nat, pdu: seq<byte>)
    requires 5 <= |pdu|
  {
    WordAt(pdu, 1) + WordAt(pdu, 3) <= size
  }

  /** The data is taken from behind the byte count, for as many coils as the quantity says. */
  function ServeWriteBits(table: seq<byte>, pdu: seq<byte>, after: seq<byte>): (seq<byte>, Answer)
    requires 6 <= |pdu|
    requires InTable(|table|, pdu) ==> 6 + ByteCount(WordAt(pdu, 3)) <= |pdu| + |after|
  {
    var address, nb := WordAt(pdu, 1), WordAt(pdu, 3);
    if !InTable(|table|, pdu) then (table, Exception(ILLEGAL_DATA_ADDRESS))
    else (Splice(table, address, Unpack(pdu[6..] + after, nb)), Normal(pdu[..5]))
  }

  function ServeWriteRegisters(table: seq<word>, pdu: seq<byte>, after: seq<byte>): (seq<word>, Answer)
    requires 6 <= |pdu|
    requires InTable(|table|, pdu) ==> 6 + 2 * WordAt(pdu, 3) <= |pdu| + |after|
  {
    var address, nb := WordAt(pdu, 1), WordAt(pdu, 3);
    if !InTable(|table|, pdu) then (table, Exception(ILLEGAL_DATA_ADDRESS))
    else (Splice(table, address, WordsOf(pdu[6..] + after, nb)), Normal(pdu[..5]))
  }

  function ServeWriteAndRead(table: seq<word>, pdu: seq<byte>): (seq<word>, Answer)
    requires 10 <= |pdu| && pdu[9] == |pdu| - 10
  {
    var address, nb := WordAt(pdu, 1), WordAt(pdu, 3);
    var addressWrite, nbWrite := WordAt(pdu, 5), WordAt(pdu, 7);
    if nbWrite < 1 || MAX_RW_WRITE_REGISTERS < nbWrite || nb < 1 || MAX_READ_REGISTERS < nb ||
       pdu[9] != 2 * nbWrite
    then (table, Exception(ILLEGAL_DATA_VALUE))
    else if |table| < address + nb || |table| < addressWrite + nbWrite
    then (table, Exception(ILLEGAL_DATA_ADDRESS))
    else
      var written := Splice(table, addressWrite, WordsOf(pdu[10..], nbWrite));
      (written, Normal([pdu[0], 2 * nb] + WordBytes(written[address..address + nb])))
  }

  /** "LMB" and the version string, after the slave id and the run indicator. */
  const SLAVE_ID_DATA: seq<byte> := [180, 0xFF, 0x4C, 0x4D, 0x42, 0x33, 0x2E, 0x30, 0x2E, 0x35]

  // ----- the switch

  /**
   FC 15 and FC 16 trust the quantity in the request and do not look at its byte count: what they store is
   read from the first `n` bytes, counted from the start of the PDU.
   */
  predicate DataWithin(t: Tables, pdu: seq<byte>, n: nat)
    requires Complete(Indication, pdu)
  {
    && (pdu[0] == FC_WRITE_MULTIPLE_COILS && InTable(|t.bits|, pdu) ==> 6 + ByteCount(WordAt(pdu, 3)) <= n)
    && (pdu[0] == FC_WRITE_MULTIPLE_REGISTERS && InTable(|t.registers|, pdu) ==> 6 + 2 * WordAt(pdu, 3) <= n)
  }

  /** The request brings the data that is stored. */
  predicate DataPresent(t: Tables, pdu: seq<byte>)
    requires Complete(Indication, pdu)
  {
    DataWithin(t, pdu, |pdu|)
  }

  /** The data that is stored lies in the request buffer, where `after` follows the PDU. */
  predicate DataInBuffer(t: Tables, pdu: seq<byte>, after: seq<byte>)
    requires Complete(Indication, pdu)
  {
    DataWithin(t, pdu, |pdu| + |after|)
  }

  /** A request that brings its data. */
  function Serve(t: Tables, pdu: seq<byte>): (Tables, Answer)
    requires Complete(Indication, pdu) && DataPresent(t, pdu)
  {
    ServeBuffer(t, pdu, [])
  }

  /** Any complete request, in a buffer where `after` follows it. */
  function ServeBuffer(t: Tables, pdu: seq<byte>, after: seq<byte>): (Tables, Answer)
    requires Complete(Indication, pdu) && DataInBuffer(t, pdu, after)
  {
    var f := pdu[0];
    if f == FC_READ_COILS then (t, ServeReadBits(t.bits, pdu))
    else if f == FC_READ_DISCRETE_INPUTS then (t, ServeReadBits(t.inputBits, pdu))
    else if f == FC_READ_HOLDING_REGISTERS then (t, ServeReadRegisters(t.registers, pdu))
    else if f == FC_READ_INPUT_REGISTERS then (t, ServeReadRegisters(t.inputRegisters, pdu))
    else if f == FC_WRITE_SINGLE_COIL then
      var (bits, answer) := ServeWriteBit(t.bits, pdu);
      (t.(bits := bits), answer)
    else if f == FC_WRITE_SINGLE_REGISTER then
      var (registers, answer) := ServeWriteRegister(t.registers, pdu);
      (t.(registers := registers), answer)
    else if f == FC_WRITE_MULTIPLE_COILS then
      var (bits, answer) := ServeWriteBits(t.bits, pdu, after);
      (t.(bits := bits), answer)
    else if f == FC_WRITE_MULTIPLE_REGISTERS then
      var (registers, answer) := ServeWriteRegisters(t.registers, pdu, after);
      (t.(registers := registers), answer)
    else if f == FC_WRITE_AND_READ_REGISTERS then
      var (registers, answer) := ServeWriteAndRead(t.registers, pdu);
      (t.(registers := registers), answer)
    else if f == FC_REPORT_SLAVE_ID then (t, Normal([f, |SLAVE_ID_DATA|] + SLAVE_ID_DATA))
    else if f == FC_READ_EXCEPTION_STATUS then (t, Silence)
    else (t, Exception(ILLEGAL_FUNCTION))
  }

  // ----- what is stored, and where it comes from

  lemma UnpackIgnores(data: seq<byte>, after: seq<byte>, nb: nat)
    requires ByteCount(nb) <= |data|
    ensures Unpack(data + after, nb) == Unpack(data, nb)
  {
    hide BitOf;
    assert forall i :: 0 <= i < |data| ==> (data + after)[i] == data[i];
  }

  lemma WordsIgnore(data: seq<byte>, after: seq<byte>, nb: nat)
    requires 2 * nb <= |data|
    ensures WordsOf(data + after, nb) == WordsOf(data, nb)
  {
  }

  /** When the data to store lies in what is known to follow a request, the rest of the buffer does not matter. */
  lemma AfterIgnored(t: Tables, pdu: seq<byte>, known: seq<byte>, rest: seq<byte>)
    requires Complete(Indication, pdu) && DataInBuffer(t, pdu, known)
    ensures DataInBuffer(t, pdu, known + rest) && ServeBuffer(t, pdu, known + rest) == ServeBuffer(t, pdu, known)
  {
    hide ServeReadBits, ServeReadRegisters, ServeWriteBit, ServeWriteRegister, ServeWriteAndRead;
    hide Unpack, WordsOf, ByteCount, Splice;
    if pdu[0] == FC_WRITE_MULTIPLE_COILS && InTable(|t.bits|, pdu) {
      assert pdu[6..] + (known + rest) == pdu[6..] + known + rest;
      UnpackIgnores(pdu[6..] + known, rest, WordAt(pdu, 3));
    } else if pdu[0] == FC_WRITE_MULTIPLE_REGISTERS && InTable(|t.registers|, pdu) {
      assert pdu[6..] + (known + rest) == pdu[6..] + known + rest;
      WordsIgnore(pdu[6..] + known, rest, WordAt(pdu, 3));
    }
  }

  function Repeated(n: nat, v: byte): seq<byte> {
    seq(n, _ => v)
  }

  /** A request whose data is not all known stores what happens to follow: zeros and ones give different tables. */
  lemma StaleIsStored(t: Tables, pdu: seq<byte>, known: seq<byte>)
    requires Complete(Indication, pdu) && !DataInBuffer(t, pdu, known)
    ensures 6 <= |pdu|
    ensures var n := 6 + 2 * WordAt(pdu, 3); var zeros, ones := known + Repeated(n, 0), known + Repeated(n, 0xFF);
            && DataInBuffer(t, pdu, zeros) && DataInBuffer(t, pdu, ones)
            && ServeBuffer(t, pdu, zeros).0 != ServeBuffer(t, pdu, ones).0
  {
    hide ServeReadBits, ServeReadRegisters, ServeWriteBit, ServeWriteRegister, ServeWriteAndRead;
    hide ServeWriteBits, ServeWriteRegisters;
    if pdu[0] == FC_WRITE_MULTIPLE_COILS {
      StaleCoils(t.bits, pdu, known);
    } else {
      StaleRegisters(t.registers, pdu, known);
    }
  }

  lemma StaleCoils(table: seq<byte>, pdu: seq<byte>, known: seq<byte>)
    requires 6 <= |pdu| && InTable(|table|, pdu) && |pdu| + |known| < 6 + ByteCount(WordAt(pdu, 3))
    ensures var n := 6 + 2 * WordAt(pdu, 3); var zeros, ones := known + Repeated(n, 0), known + Repeated(n, 0xFF);
            && 6 + ByteCount(WordAt(pdu, 3)) <= n
            && ServeWriteBits(table, pdu, zeros).0 != ServeWriteBits(table, pdu, ones).0
  {
    var address: nat, nb: nat := WordAt(pdu, 1), WordAt(pdu, 3);
    var n := 6 + 2 * nb;
    var zeros, ones := known + Repeated(n, 0), known + Repeated(n, 0xFF);
    var i, k, j := address + nb - 1, (nb - 1) / 8, (nb - 1) % 8;
    assert (pdu[6..] + zeros)[k] == 0 && (pdu[6..] + ones)[k] == Not(0);
    ZeroHasNoBits(j);
    BitOfNot(0, j);
    hide BitOf;
    assert Unpack(pdu[6..] + zeros, nb)[nb - 1] != Unpack(pdu[6..] + ones, nb)[nb - 1];
    assert ServeWriteBits(table, pdu, zeros).0[i] != ServeWriteBits(table, pdu, ones).0[i];
  }

  lemma StaleRegisters(table: seq<word>, pdu: seq<byte>, known: seq<byte>)
    requires 6 <= |pdu| && InTable(|table|, pdu) && |pdu| + |known| < 6 + 2 * WordAt(pdu, 3)
    ensures var n := 6 + 2 * WordAt(pdu, 3); var zeros, ones := known + Repeated(n, 0), known + Repeated(n, 0xFF);
            ServeWriteRegisters(table, pdu, zeros).0 != ServeWriteRegisters(table, pdu, ones).0
  {
    var address: nat, nb: nat := WordAt(pdu, 1), WordAt(pdu, 3);
    var n := 6 + 2 * nb;
    var zeros, ones := known + Repeated(n, 0), known + Repeated(n, 0xFF);
    var i, k := address + nb - 1, 2 * (nb - 1);
    assert (pdu[6..] + zeros)[k + 1] == 0 && (pdu[6..] + ones)[k + 1] == 0xFF;
    assert WordsOf(pdu[6..] + zeros, nb)[nb - 1] != WordsOf(pdu[6..] + ones, nb)[nb - 1];
    assert ServeWriteRegisters(table, pdu, zeros).0[i] != ServeWriteRegisters(table, pdu, ones).0[i];
  }

  /** Only FC 7, which the server does not implement, goes unanswered. */
  lemma SilentIff(t: Tables, pdu: seq<byte>, after: seq<byte>)
    requires Complete(Indication, pdu) && DataInBuffer(t, pdu, after)
    ensures ServeBuffer(t, pdu, after).1.Silence? <==> pdu[0] == FC_READ_EXCEPTION_STATUS
  {
    hide IoStatus, Unpack, WordBytes, WordsOf, ByteCount, Splice;
  }

  /** `sft->function + 0x80`, stored into a uint8_t. */
  function ExceptionFunction(f: byte): byte {
    (f + 0x80) % 0x100
  }

  function ResponsePdu(f: byte, answer: Answer): seq<byte>
    requires !answer.Silence?
  {
    match answer
    case Normal(pdu) => pdu
    case Exception(code) => [ExceptionFunction(f), code]
  }

  // ----- whole messages

  predicate IsMessageOfRequest(be: Backend, req: seq<byte>) {
    && be.HeaderLength() + be.ChecksumLength() < |req| <= be.MaxAduLength()
    && Complete(Indication, PduOf(be, req))
  }

  predicate IsRequest(be: Backend, t: Tables, req: seq<byte>) {
    IsMessageOfRequest(be, req) && DataPresent(t, PduOf(be, req))
  }

  /** What follows the PDU of `req` in a buffer where `rest` follows `req`: the checksum comes first. */
  function AfterPdu(be: Backend, req: seq<byte>, rest: seq<byte>): seq<byte>
    requires be.ChecksumLength() <= |req|
  {
    req[|req| - be.ChecksumLength()..] + rest
  }

  predicate IsBuffered(be: Backend, t: Tables, req: seq<byte>, rest: seq<byte>) {
    IsMessageOfRequest(be, req) && DataInBuffer(t, PduOf(be, req), AfterPdu(be, req, rest))
  }

  /** `filter_request`: over RTU only the server's own id and the broadcast id are heard. */
  predicate Filtered(be: Backend, serverSlave: byte, slave: byte) {
    be.Rtu? && slave != serverSlave && slave != 0
  }

  /** `prepare_response_tid`. */
  function TidOf(be: Backend, msg: seq<byte>): word
    requires be.HeaderLength() <= |msg|
  {
    if be.Rtu? then 0 else Word(msg[0], msg[1])
  }

  predicate Echoes(f: byte, answer: Answer) {
    answer.Normal? && (f == FC_WRITE_SINGLE_COIL || f == FC_WRITE_SINGLE_REGISTER)
  }

  /** An answer fits the response buffer, and an echo repeats the request. */
  predicate Answers(pdu: seq<byte>, answer: Answer)
    requires 1 <= |pdu|
  {
    && (!answer.Silence? ==> 1 <= |ResponsePdu(pdu[0], answer)| <= 252)
    && (Echoes(pdu[0], answer) ==> answer.pdu == pdu)
  }

  lemma ServeAnswers(t: Tables, pdu: seq<byte>, after: seq<byte>)
    requires Complete(Indication, pdu) && DataInBuffer(t, pdu, after)
    ensures Answers(pdu, ServeBuffer(t, pdu, after).1)
  {
    hide ByteCount, IoStatus, Unpack, WordBytes, WordsOf;
    ByteCountFits();
  }

  lemma AnswersWithData(t: Tables, pdu: seq<byte>)
    requires Complete(Indication, pdu) && DataPresent(t, pdu)
    ensures Answers(pdu, Serve(t, pdu).1)
  {
    hide ServeBuffer, Answers;
    ServeAnswers(t, pdu, []);
  }

  lemma ByteCountFits()
    ensures forall nb: nat :: nb <= MAX_READ_BITS ==> ByteCount(nb) <= 250
    ensures forall nb: nat :: nb <= MAX_WRITE_BITS ==> ByteCount(nb) <= 246
    ensures ByteCount(0) == 0
    ensures forall nb: nat :: ByteCount(nb) == 0 ==> nb == 0
  {
  }

  /** The message that carries an answer to the request `req`: single writes send the request itself back. */
  function ReplyMessage(be: Backend, req: seq<byte>, answer: Answer): seq<byte>
    requires be.HeaderLength() + be.ChecksumLength() < |req| <= be.MaxAduLength()
    requires Answers(PduOf(be, req), answer)
  {
    var h := be.HeaderLength();
    var f := PduOf(be, req)[0];
    if answer.Silence? then []
    else if Echoes(f, answer) then Finish(be, req[..|req| - be.ChecksumLength()])
    else Frame(be, TidOf(be, req), req[h - 1], ResponsePdu(f, answer))
  }

  /** `modbus_reply`: the tables after the request `req` in a buffer it shares with `rest`, and the bytes sent. */
  function ReplyBuffer(be: Backend, serverSlave: byte, t: Tables, req: seq<byte>, rest: seq<byte>): (Tables, seq<byte>)
    requires IsBuffered(be, t, req, rest)
  {
    var pdu, after := PduOf(be, req), AfterPdu(be, req, rest);
    if Filtered(be, serverSlave, req[be.HeaderLength() - 1]) then (t, [])
    else
      ServeAnswers(t, pdu, after);
      var (t', answer) := ServeBuffer(t, pdu, after);
      (t', ReplyMessage(be, req, answer))
  }

  /** `modbus_reply` for a request that brings its data. */
  function Reply(be: Backend, serverSlave: byte, t: Tables, req: seq<byte>): (Tables, seq<byte>)
    requires IsRequest(be, t, req)
  {
    var pdu := PduOf(be, req);
    if Filtered(be, serverSlave, req[be.HeaderLength() - 1]) then (t, [])
    else
      AnswersWithData(t, pdu);
      var (t', answer) := Serve(t, pdu);
      (t', ReplyMessage(be, req, answer))
  }

  lemma ReplyIgnoresRest(be: Backend, serverSlave: byte, t: Tables, req: seq<byte>, rest: seq<byte>)
    requires IsRequest(be, t, req)
    ensures IsBuffered(be, t, req, rest)
    ensures ReplyBuffer(be, serverSlave, t, req, rest) == Reply(be, serverSlave, t, req)
  {
    hide ServeBuffer, ReplyMessage, Complete;
    var after := AfterPdu(be, req, rest);
    AfterIgnored(t, PduOf(be, req), [], after);
    assert [] + after == after;
  }

  /** The tables after a request do not depend on what follows it in the server's buffer. */
  ghost predicate Determined(be: Backend, serverSlave: byte, t: Tables, req: seq<byte>) {
    forall a, b :: IsBuffered(be, t, req, a) && IsBuffered(be, t, req, b) ==>
      ReplyBuffer(be, serverSlave, t, req, a).0 == ReplyBuffer(be, serverSlave, t, req, b).0
  }

  /** The data that is stored lies within the message, of which over RTU the checksum is a part. */
  predicate DataInMessage(be: Backend, t: Tables, req: seq<byte>)
    requires IsMessageOfRequest(be, req)
  {
    DataWithin(t, PduOf(be, req), |PduOf(be, req)| + be.ChecksumLength())
  }

  /** What a request stores is fixed by the request exactly if the data it announces lies within the message. */
  lemma DeterminedIff(be: Backend, serverSlave: byte, t: Tables, req: seq<byte>)
    requires IsMessageOfRequest(be, req)
    ensures Determined(be, serverSlave, t, req) <==>
            Filtered(be, serverSlave, req[be.HeaderLength() - 1]) || DataInMessage(be, t, req)
  {
    hide ServeBuffer, ReplyMessage, Complete, DataWithin;
    var pdu, crc := PduOf(be, req), AfterPdu(be, req, []);
    if Filtered(be, serverSlave, req[be.HeaderLength() - 1]) {
    } else if DataInMessage(be, t, req) {
      forall a, b | IsBuffered(be, t, req, a) && IsBuffered(be, t, req, b)
        ensures ReplyBuffer(be, serverSlave, t, req, a).0 == ReplyBuffer(be, serverSlave, t, req, b).0
      {
        SplitAfterPdu(be, req, a);
        SplitAfterPdu(be, req, b);
        AfterIgnored(t, pdu, crc, a);
        AfterIgnored(t, pdu, crc, b);
      }
    } else {
      StaleIsStored(t, pdu, crc);
      var n := 6 + 2 * WordAt(pdu, 3);
      var zeros, ones := Repeated(n, 0), Repeated(n, 0xFF);
      SplitAfterPdu(be, req, zeros);
      SplitAfterPdu(be, req, ones);
      assert ReplyBuffer(be, serverSlave, t, req, zeros).0 != ReplyBuffer(be, serverSlave, t, req, ones).0;
    }
  }

  lemma SplitAfterPdu(be: Backend, req: seq<byte>, rest: seq<byte>)
    requires be.ChecksumLength() <= |req|
    ensures |AfterPdu(be, req, [])| == be.ChecksumLength()
    ensures AfterPdu(be, req, rest) == AfterPdu(be, req, []) + rest
  {
  }

  /** Two registers are to be written, and the byte count is zero: over neither backend is that determined. */
  lemma RequestWithoutData(be: Backend, tid: word, slave: byte, t: Tables)
    requires 2 <= |t.registers|
    ensures var req := Frame(be, tid, slave, [FC_WRITE_MULTIPLE_REGISTERS, 0, 0, 0, 2, 0]);
            IsMessageOfRequest(be, req) && !DataInMessage(be, t, req) && !Determined(be, slave, t, req)
  {
    hide Crc16, Frame, Determined;
    var pdu: seq<byte> := [FC_WRITE_MULTIPLE_REGISTERS, 0, 0, 0, 2, 0];
    FrameParts(be, tid, slave, pdu);
    DeterminedIff(be, slave, t, Frame(be, tid, slave, pdu));
  }

  /** With one register to be written, RTU stores the checksum of the request, whatever follows; TCP what follows. */
  lemma ChecksumIsStored(be: Backend, tid: word, slave: byte, t: Tables, rest: seq<byte>)
    requires 1 <= |t.registers|
    ensures var req := Frame(be, tid, slave, [FC_WRITE_MULTIPLE_REGISTERS, 0, 0, 0, 1, 0]);
            && IsMessageOfRequest(be, req)
            && (Determined(be, slave, t, req) <==> be.Rtu?)
            && (be.Rtu? ==>
                  && IsBuffered(be, t, req, rest)
                  && ReplyBuffer(be, slave, t, req, rest).0 ==
                     t.(registers := t.registers[0 := WordAt(req, |req| - 2)]))
  {
    hide Crc16, Frame, Determined, ReplyMessage;
    var pdu: seq<byte> := [FC_WRITE_MULTIPLE_REGISTERS, 0, 0, 0, 1, 0];
    var req := Frame(be, tid, slave, pdu);
    FrameParts(be, tid, slave, pdu);
    DeterminedIff(be, slave, t, req);
    if be.Rtu? {
      var n: nat := 1;
      assert WordsOf(pdu[6..] + AfterPdu(be, req, rest), n) == [WordAt(req, |req| - 2)];
    }
  }

  lemma EchoIsFramed(be: Backend, tid: word, slave: byte, pdu: seq<byte>)
    requires |pdu| < 0xFF00
    ensures var req := Frame(be, tid, slave, pdu);
            be.HeaderLength() + be.ChecksumLength() <= |req| && Finish(be, req[..|req| - be.ChecksumLength()]) == req
  {
    hide Crc16;
    var req := Frame(be, tid, slave, pdu);
    var h := be.HeaderLength();
    FrameParts(be, tid, slave, pdu);
    var m := req[..|req| - be.ChecksumLength()];
    assert m[..h] == req[..h];
    FinishIsFrame(be, m, tid, slave, pdu);
  }

  /** For a request whose MBAP header is in order, the echo is framed like every other answer. */
  lemma ReplyIsFramed(be: Backend, tid: word, slave: byte, pdu: seq<byte>, answer: Answer, req: seq<byte>)
    requires 1 <= |pdu| <= 253 && Answers(pdu, answer) && !answer.Silence?
    requires req == Frame(be, tid, slave, pdu)
    ensures PduOf(be, req) == pdu
    ensures be.HeaderLength() + be.ChecksumLength() < |req| <= be.MaxAduLength()
    ensures ReplyMessage(be, req, answer) == Frame(be, tid, slave, ResponsePdu(pdu[0], answer))
  {
    hide Crc16;
    FrameParts(be, tid, slave, pdu);
    if Echoes(pdu[0], answer) {
      EchoIsFramed(be, tid, slave, pdu);
    }
  }
}
