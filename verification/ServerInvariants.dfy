/** What the server keeps through any sequence of well-framed requests, and how its responses are framed. */
module ServerInvariants {
  import opened Bytes
  import opened Bits
  import opened BitPacking
  import opened Crc
  import opened CrcDetection
  import opened Protocol
  import opened Receiver
  import opened ServerModel

  /** `modbus_mapping_new`. */
  function NewTables(nbBits: nat, nbInputBits: nat, nbRegisters: nat, nbInputRegisters: nat): Tables {
    Tables(seq(nbBits, _ => 0), seq(nbInputBits, _ => 0), seq(nbRegisters, _ => 0), seq(nbInputRegisters, _ => 0))
  }

  /** Same sizes, same input tables, and coils that are still zeros and ones. */
  predicate Keeps(t: Tables, t': Tables) {
    && |t'.bits| == |t.bits| && |t'.registers| == |t.registers|
    && t'.inputBits == t.inputBits && t'.inputRegisters == t.inputRegisters
    && (ZeroOne(t.bits) ==> ZeroOne(t'.bits))
  }

  lemma SplicedZeroOne(table: seq<byte>, at: nat, bytes: seq<byte>, nb: nat)
    requires at + nb <= |table| && ByteCount(nb) <= |bytes| && ZeroOne(table)
    ensures ZeroOne(Splice(table, at, Unpack(bytes, nb)))
  {
    hide BitOf;
  }

  lemma ServeKeeps(t: Tables, pdu: seq<byte>, after: seq<byte>)
    requires Complete(Indication, pdu) && DataInBuffer(t, pdu, after)
    ensures Keeps(t, ServeBuffer(t, pdu, after).0)
  {
    hide IoStatus, Unpack, WordBytes, WordsOf, ByteCount, ServeReadBits, ServeReadRegisters;
    if pdu[0] == FC_WRITE_MULTIPLE_COILS && InTable(|t.bits|, pdu) && ZeroOne(t.bits) {
      SplicedZeroOne(t.bits, WordAt(pdu, 1), pdu[6..] + after, WordAt(pdu, 3));
    }
  }

  /** A request answered by an exception, or by nothing, changes no table. */
  lemma ExceptionChangesNothing(t: Tables, pdu: seq<byte>, after: seq<byte>)
    requires Complete(Indication, pdu) && DataInBuffer(t, pdu, after)
    requires !ServeBuffer(t, pdu, after).1.Normal?
    ensures ServeBuffer(t, pdu, after).0 == t
  {
    hide IoStatus, Unpack, WordBytes, WordsOf, ByteCount, ServeReadBits, ServeReadRegisters, Splice;
  }

  /** The registers a request writes, if it is carried out: where they start, and their values. */
  function WrittenRegisters(pdu: seq<byte>, after: seq<byte>): (r: (nat, seq<word>))
    requires Complete(Indication, pdu)
    requires pdu[0] == FC_WRITE_MULTIPLE_REGISTERS ==> 6 + 2 * WordAt(pdu, 3) <= |pdu| + |after|
    requires pdu[0] == FC_WRITE_AND_READ_REGISTERS ==> 2 * WordAt(pdu, 7) == pdu[9]
  {
    if pdu[0] == FC_WRITE_SINGLE_REGISTER then (WordAt(pdu, 1), [WordAt(pdu, 3)])
    else if pdu[0] == FC_WRITE_MULTIPLE_REGISTERS then (WordAt(pdu, 1), WordsOf(pdu[6..] + after, WordAt(pdu, 3)))
    else if pdu[0] == FC_WRITE_AND_READ_REGISTERS then (WordAt(pdu, 5), WordsOf(pdu[10..], WordAt(pdu, 7)))
    else (0, [])
  }

  /** A request carried out writes exactly its range of registers, register by register. */
  lemma RegistersWritten(t: Tables, pdu: seq<byte>, after: seq<byte>, i: nat)
    requires Complete(Indication, pdu) && DataInBuffer(t, pdu, after)
    requires ServeBuffer(t, pdu, after).1.Normal? && i < |t.registers|
    ensures pdu[0] == FC_WRITE_MULTIPLE_REGISTERS ==> 6 + 2 * WordAt(pdu, 3) <= |pdu| + |after|
    ensures pdu[0] == FC_WRITE_AND_READ_REGISTERS ==> 2 * WordAt(pdu, 7) == pdu[9]
    ensures |ServeBuffer(t, pdu, after).0.registers| == |t.registers|
    ensures var (at, values) := WrittenRegisters(pdu, after);
            ServeBuffer(t, pdu, after).0.registers[i] ==
              if at <= i < at + |values| then values[i - at] else t.registers[i]
  {
    hide IoStatus, Unpack, WordBytes, WordsOf, ByteCount, ServeReadBits, ServeReadRegisters;
  }

  /** A request carried out writes exactly its range of coils, coil by coil. */
  lemma CoilsWritten(t: Tables, pdu: seq<byte>, after: seq<byte>, i: nat)
    requires Complete(Indication, pdu) && DataInBuffer(t, pdu, after)
    requires ServeBuffer(t, pdu, after).1.Normal? && i < |t.bits|
    ensures |ServeBuffer(t, pdu, after).0.bits| == |t.bits|
    ensures pdu[0] == FC_WRITE_SINGLE_COIL ==>
              ServeBuffer(t, pdu, after).0.bits[i] ==
                if i == WordAt(pdu, 1) then Unit(WordAt(pdu, 3) == 0xFF00) else t.bits[i]
    ensures pdu[0] == FC_WRITE_MULTIPLE_COILS ==>
              6 + ByteCount(WordAt(pdu, 3)) <= |pdu| + |after| &&
              ServeBuffer(t, pdu, after).0.bits[i] ==
                var k := i - WordAt(pdu, 1);
                if 0 <= k < WordAt(pdu, 3) then Unit(BitOf((pdu + after)[6 + k / 8], k % 8)) else t.bits[i]
    ensures pdu[0] != FC_WRITE_SINGLE_COIL && pdu[0] != FC_WRITE_MULTIPLE_COILS ==>
              ServeBuffer(t, pdu, after).0.bits == t.bits
  {
    hide IoStatus, WordBytes, WordsOf, BitOf, ServeReadBits, ServeReadRegisters;
  }

  /** FC 0x17 answers with the values of the registers after its own write. */
  lemma WriteAndReadAnswersAfterWrite(t: Tables, pdu: seq<byte>, after: seq<byte>)
    requires Complete(Indication, pdu) && pdu[0] == FC_WRITE_AND_READ_REGISTERS
    requires DataInBuffer(t, pdu, after) && ServeBuffer(t, pdu, after).1.Normal?
    ensures var (t', answer) := ServeBuffer(t, pdu, after);
            var address: nat, nb: nat := WordAt(pdu, 1), WordAt(pdu, 3);
            && |answer.pdu| == 2 + 2 * nb && answer.pdu[1] == 2 * nb
            && address + nb <= |t'.registers|
            && WordsOf(answer.pdu[2..], nb) == t'.registers[address..address + nb]
  {
    hide WordBytes, WordsOf;
    var (t', answer) := ServeBuffer(t, pdu, after);
    var address: nat, nb: nat := WordAt(pdu, 1), WordAt(pdu, 3);
    var values := t'.registers[address..address + nb];
    WordsOfWordBytes(values);
    assert answer.pdu[2..] == WordBytes(values);
  }

  // ----- sequences of requests

  /** A request in the server's buffer, and what follows it there. */
  datatype Held = Held(msg: seq<byte>, rest: seq<byte>)

  /** `reqs` are well-framed requests, whenever they are served one after the other from `t` on. */
  predicate AllRequests(be: Backend, serverSlave: byte, t: Tables, reqs: seq<Held>)
    decreases |reqs|
  {
    reqs == [] ||
    (IsBuffered(be, t, reqs[0].msg, reqs[0].rest) &&
     AllRequests(be, serverSlave, ReplyBuffer(be, serverSlave, t, reqs[0].msg, reqs[0].rest).0, reqs[1..]))
  }

  function ServeAll(be: Backend, serverSlave: byte, t: Tables, reqs: seq<Held>): Tables
    requires AllRequests(be, serverSlave, t, reqs)
    decreases |reqs|
  {
    if reqs == [] then t
    else ServeAll(be, serverSlave, ReplyBuffer(be, serverSlave, t, reqs[0].msg, reqs[0].rest).0, reqs[1..])
  }

  lemma {:induction false} ServeAllKeeps(be: Backend, serverSlave: byte, t: Tables, reqs: seq<Held>)
    requires AllRequests(be, serverSlave, t, reqs)
    ensures Keeps(t, ServeAll(be, serverSlave, t, reqs))
    decreases |reqs|
  {
    hide ServeBuffer, DataInBuffer, Complete, ReplyMessage, ZeroOne;
    if reqs != [] {
      var msg, rest := reqs[0].msg, reqs[0].rest;
      ServeKeeps(t, PduOf(be, msg), AfterPdu(be, msg, rest));
      ServeAllKeeps(be, serverSlave, ReplyBuffer(be, serverSlave, t, msg, rest).0, reqs[1..]);
    }
  }

  /** From `modbus_mapping_new` on: coils and discrete inputs stay zeros and ones, the inputs stay zero. */
  lemma TablesStayValid(be: Backend, serverSlave: byte, reqs: seq<Held>,
                        nbBits: nat, nbInputBits: nat, nbRegisters: nat, nbInputRegisters: nat)
    requires AllRequests(be, serverSlave, NewTables(nbBits, nbInputBits, nbRegisters, nbInputRegisters), reqs)
    ensures var t := NewTables(nbBits, nbInputBits, nbRegisters, nbInputRegisters);
            var t' := ServeAll(be, serverSlave, t, reqs);
            && |t'.bits| == nbBits && |t'.registers| == nbRegisters
            && ZeroOne(t'.bits) && ZeroOne(t'.inputBits)
            && t'.inputBits == t.inputBits && t'.inputRegisters == t.inputRegisters
  {
    hide AllRequests, ServeAll;
    ServeAllKeeps(be, serverSlave, NewTables(nbBits, nbInputBits, nbRegisters, nbInputRegisters), reqs);
  }

  // ----- framing of responses

  /** Function codes whose confirmations carry more than one byte after the code. */
  predicate LongConfirmation(f: byte) {
    f <= FC_WRITE_SINGLE_REGISTER || f == FC_WRITE_MULTIPLE_COILS || f == FC_WRITE_MULTIPLE_REGISTERS ||
    f == FC_REPORT_SLAVE_ID || f == FC_WRITE_AND_READ_REGISTERS
  }

  /** A normal answer is as long as the client's receiver takes it to be. */
  predicate Framed(answer: Answer) {
    answer.Normal? ==> Complete(Confirmation, answer.pdu)
  }

  lemma ReadBitsFramed(table: seq<byte>, pdu: seq<byte>)
    requires |pdu| == 5 && (pdu[0] == FC_READ_COILS || pdu[0] == FC_READ_DISCRETE_INPUTS)
    ensures Framed(ServeReadBits(table, pdu))
  {
    hide IoStatus, ByteCount;
    ByteCountFits();
  }

  lemma ReadRegistersFramed(table: seq<word>, pdu: seq<byte>)
    requires |pdu| == 5 && (pdu[0] == FC_READ_HOLDING_REGISTERS || pdu[0] == FC_READ_INPUT_REGISTERS)
    ensures Framed(ServeReadRegisters(table, pdu))
  {
    hide WordBytes;
  }

  lemma WriteAndReadFramed(table: seq<word>, pdu: seq<byte>)
    requires 10 <= |pdu| && pdu[9] == |pdu| - 10 && pdu[0] == FC_WRITE_AND_READ_REGISTERS
    ensures Framed(ServeWriteAndRead(table, pdu).1)
  {
    hide WordBytes, WordsOf, Splice;
  }

  lemma NormalIsComplete(t: Tables, pdu: seq<byte>, after: seq<byte>)
    requires Complete(Indication, pdu) && DataInBuffer(t, pdu, after)
    requires ServeBuffer(t, pdu, after).1.Normal?
    ensures Complete(Confirmation, ServeBuffer(t, pdu, after).1.pdu)
  {
    hide ServeReadBits, ServeReadRegisters, ServeWriteAndRead, Unpack, WordsOf, ByteCount, Splice;
    var f := pdu[0];
    if f == FC_READ_COILS {
      ReadBitsFramed(t.bits, pdu);
    } else if f == FC_READ_DISCRETE_INPUTS {
      ReadBitsFramed(t.inputBits, pdu);
    } else if f == FC_READ_HOLDING_REGISTERS {
      ReadRegistersFramed(t.registers, pdu);
    } else if f == FC_READ_INPUT_REGISTERS {
      ReadRegistersFramed(t.inputRegisters, pdu);
    } else if f == FC_WRITE_AND_READ_REGISTERS {
      WriteAndReadFramed(t.registers, pdu);
    }
  }

  lemma ResponseCompleteIff(t: Tables, pdu: seq<byte>, after: seq<byte>)
    requires Complete(Indication, pdu) && DataInBuffer(t, pdu, after)
    requires !ServeBuffer(t, pdu, after).1.Silence?
    ensures Complete(Confirmation, ResponsePdu(pdu[0], ServeBuffer(t, pdu, after).1)) <==>
            pdu[0] < 0x80 || !LongConfirmation(pdu[0] - 0x80)
  {
    hide ServeReadBits, ServeReadRegisters, ServeWriteBit, ServeWriteRegister;
    hide ServeWriteBits, ServeWriteRegisters, ServeWriteAndRead;
    if ServeBuffer(t, pdu, after).1.Normal? {
      NormalIsComplete(t, pdu, after);
      NormalFunction(t, pdu, after);
    }
  }

  lemma NormalFunction(t: Tables, pdu: seq<byte>, after: seq<byte>)
    requires Complete(Indication, pdu) && DataInBuffer(t, pdu, after)
    requires ServeBuffer(t, pdu, after).1.Normal?
    ensures pdu[0] < 0x80
  {
  }

  /** A message made of the header and the PDU of `req` has both again, and a good checksum. */
  lemma FinishKeepsParts(be: Backend, req: seq<byte>)
    requires be.HeaderLength() + be.ChecksumLength() < |req| <= be.MaxAduLength()
    ensures var sent := Finish(be, req[..|req| - be.ChecksumLength()]);
            |sent| == |req| && PduOf(be, sent) == PduOf(be, req) && CheckIntegrity(be, sent)
  {
    hide Crc16;
    if be.Rtu? {
      SealedIsOk(req[..|req| - 2]);
    }
  }

  /** A message with an answer carries the response PDU, fits the wire, and has a good checksum. */
  lemma ReplyParts(be: Backend, req: seq<byte>, answer: Answer)
    requires be.HeaderLength() + be.ChecksumLength() < |req| <= be.MaxAduLength()
    requires Answers(PduOf(be, req), answer) && !answer.Silence?
    ensures var sent := ReplyMessage(be, req, answer);
            && be.HeaderLength() + be.ChecksumLength() < |sent| <= be.MaxAduLength()
            && PduOf(be, sent) == ResponsePdu(PduOf(be, req)[0], answer)
            && CheckIntegrity(be, sent)
  {
    hide Crc16, CheckIntegrity, Finish, Frame;
    var f := PduOf(be, req)[0];
    if Echoes(f, answer) {
      FinishKeepsParts(be, req);
    } else {
      FrameParts(be, TidOf(be, req), req[be.HeaderLength() - 1], ResponsePdu(f, answer));
    }
  }

  /** The receiver takes a sound message whole exactly if its PDU is as long as it announces. */
  lemma TakenWholeIff(be: Backend, kind: Kind, sent: seq<byte>, more: seq<byte>)
    requires be.HeaderLength() + be.ChecksumLength() < |sent| <= be.MaxAduLength() && CheckIntegrity(be, sent)
    ensures Receive(be, kind, sent + more) == Reception(Ok(sent), |sent|) <==> Complete(kind, PduOf(be, sent))
  {
    hide Receive, Complete, CheckIntegrity;
    if Complete(kind, PduOf(be, sent)) {
      MessageIsReceived(be, kind, sent, more);
    } else if Receive(be, kind, sent + more).result == Ok(sent) {
      ReceivedIsComplete(be, kind, sent + more);
      assert false;
    }
  }

  /**
   Whatever comes behind it, the client's receiver takes exactly the message that `modbus_reply` sends,
   unless the function code of the request was 0x80 or more and wraps round to that of a longer confirmation.
   */
  lemma ResponseFramedIff(be: Backend, serverSlave: byte, t: Tables, req: seq<byte>, rest: seq<byte>, more: seq<byte>)
    requires IsBuffered(be, t, req, rest) && !Filtered(be, serverSlave, req[be.HeaderLength() - 1])
    requires PduOf(be, req)[0] != FC_READ_EXCEPTION_STATUS
    ensures var sent, f := ReplyBuffer(be, serverSlave, t, req, rest).1, PduOf(be, req)[0];
            Receive(be, Confirmation, sent + more) == Reception(Ok(sent), |sent|) <==>
            f < 0x80 || !LongConfirmation(f - 0x80)
  {
    hide ServeBuffer, Complete, DataInBuffer, Receive, ReplyMessage, CheckIntegrity, LongConfirmation;
    var pdu, after := PduOf(be, req), AfterPdu(be, req, rest);
    var answer := ServeBuffer(t, pdu, after).1;
    ServeAnswers(t, pdu, after);
    SilentIff(t, pdu, after);
    ReplyParts(be, req, answer);
    ResponseCompleteIff(t, pdu, after);
    TakenWholeIff(be, Confirmation, ReplyMessage(be, req, answer), more);
  }

  /** A request of function 0x81 is answered with a message that the client's receiver reads past. */
  lemma WrappedFunctionIsMisframed(be: Backend, tid: word, slave: byte, t: Tables, more: seq<byte>)
    ensures var req := Frame(be, tid, slave, [0x81]);
            && IsBuffered(be, t, req, [])
            && var sent := ReplyBuffer(be, slave, t, req, []).1;
               && sent == Frame(be, tid, slave, [0x01, ILLEGAL_FUNCTION])
               && Receive(be, Confirmation, sent) == Reception(Err(NoAnswer), |sent|)
               && (more != [] ==> Receive(be, Confirmation, sent + more).taken == |sent| + 1)
  {
    hide Crc16, Frame;
    var req := Frame(be, tid, slave, [0x81]);
    var answer := Exception(ILLEGAL_FUNCTION);
    FrameParts(be, tid, slave, [0x81]);
    assert ServeBuffer(t, [0x81], AfterPdu(be, req, [])).1 == answer;
    ReplyIsFramed(be, tid, slave, [0x81], answer, req);
    var response := [0x01, ILLEGAL_FUNCTION];
    var sent := Frame(be, tid, slave, response);
    FrameParts(be, tid, slave, response);
    ReadsPast(be, sent, response, []);
    assert sent + [] == sent;
    ReadsPast(be, sent, response, more);
  }

  lemma ReadsPast(be: Backend, sent: seq<byte>, pdu: seq<byte>, more: seq<byte>)
    requires pdu == [0x01, ILLEGAL_FUNCTION]
    requires |sent| == be.HeaderLength() + 2 + be.ChecksumLength() && PduOf(be, sent) == pdu
    ensures more == [] ==> Receive(be, Confirmation, sent + more) == Reception(Err(NoAnswer), |sent|)
    ensures more != [] ==> Receive(be, Confirmation, sent + more).taken == |sent| + 1
  {
    hide CheckIntegrity;
    var s, h := sent + more, be.HeaderLength();
    assert s[h..][..2] == pdu;
    LengthFromPrefix(Confirmation, s[h..], 2);
  }
}
