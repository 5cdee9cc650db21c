/**
 What `modbus_reply` sends and stores, in numbers: which function reads or writes which table, with which limits, and
 which exception it answers otherwise.
 */
module WireAnswers {
  import opened Bytes
  import opened BitPacking
  import opened Protocol
  import opened Receiver
  import opened ServerModel
  import opened ServerInvariants
  import opened Crc
  import opened WireFormat

  // ----- the answers, byte by byte

  predicate Refusal(pdu: seq<byte>, rsp: seq<byte>, code: byte) {
    1 <= |pdu| && rsp == [(pdu[0] as int + 128) % 256, code]
  }

  predicate BitsAnswered(table: seq<byte>, pdu: seq<byte>, rsp: seq<byte>)
    requires |pdu| == 5
  {
    var a, n := Field(pdu, 1), Field(pdu, 3);
    if n == 0 || 2000 < n then Refusal(pdu, rsp, 3)
    else if |table| < a + n then Refusal(pdu, rsp, 2)
    else 2 <= |rsp| && rsp[0] == pdu[0] && rsp[1] == (n + 7) / 8 && CarriesBits(rsp, 2, table[a..a + n])
  }

  predicate WordsAnswered(table: seq<word>, pdu: seq<byte>, rsp: seq<byte>)
    requires |pdu| == 5
  {
    var a, n := Field(pdu, 1), Field(pdu, 3);
    if n == 0 || 125 < n then Refusal(pdu, rsp, 3)
    else if |table| < a + n then Refusal(pdu, rsp, 2)
    else 2 <= |rsp| && rsp[0] == pdu[0] && rsp[1] == 2 * n && CarriesWords(rsp, 2, table[a..a + n])
  }

  predicate CoilStored(table: seq<byte>, table': seq<byte>, pdu: seq<byte>, rsp: seq<byte>)
    requires |pdu| == 5
  {
    var a, v := Field(pdu, 1), Field(pdu, 3);
    if |table| <= a then table' == table && Refusal(pdu, rsp, 2)
    else if v == 0xFF00 then table' == table[a := 1] && rsp == pdu
    else if v == 0 then table' == table[a := 0] && rsp == pdu
    else table' == table && Refusal(pdu, rsp, 3)
  }

  predicate RegisterStored(table: seq<word>, table': seq<word>, pdu: seq<byte>, rsp: seq<byte>)
    requires |pdu| == 5
  {
    var a, v := Field(pdu, 1), Field(pdu, 3);
    if |table| <= a then table' == table && Refusal(pdu, rsp, 2)
    else table' == table[a := v] && rsp == pdu
  }

  /** `data` is the PDU and what follows it in the buffer. */
  predicate CoilsStored(table: seq<byte>, table': seq<byte>, pdu: seq<byte>, data: seq<byte>, rsp: seq<byte>)
    requires 6 <= |pdu|
  {
    var a, n := Field(pdu, 1), Field(pdu, 3);
    if |table| < a + n then table' == table && Refusal(pdu, rsp, 2)
    else
      && rsp == pdu[..5] && |table'| == |table| && 6 + (n + 7) / 8 <= |data|
      && forall i :: 0 <= i < |table| ==>
           table'[i] == if a <= i < a + n then Bit(data[6 + (i - a) / 8], (i - a) % 8) else table[i]
  }

  predicate RegistersStored(table: seq<word>, table': seq<word>, pdu: seq<byte>, data: seq<byte>, rsp: seq<byte>)
    requires 6 <= |pdu|
  {
    var a, n := Field(pdu, 1), Field(pdu, 3);
    if |table| < a + n then table' == table && Refusal(pdu, rsp, 2)
    else
      && rsp == pdu[..5] && |table'| == |table| && 6 + 2 * n <= |data|
      && forall i :: 0 <= i < |table| ==>
           table'[i] == if a <= i < a + n then Field(data, 6 + 2 * (i - a)) else table[i]
  }

  predicate StoredAndRead(table: seq<word>, table': seq<word>, pdu: seq<byte>, rsp: seq<byte>)
    requires 10 <= |pdu| && |pdu| - 10 == pdu[9]
  {
    var a, n, b, m := Field(pdu, 1), Field(pdu, 3), Field(pdu, 5), Field(pdu, 7);
    if m == 0 || 121 < m || n == 0 || 125 < n || pdu[9] != 2 * m then table' == table && Refusal(pdu, rsp, 3)
    else if |table| < a + n || |table| < b + m then table' == table && Refusal(pdu, rsp, 2)
    else
      && |table'| == |table|
      && (forall i :: 0 <= i < |table| ==>
            table'[i] == if b <= i < b + m then Field(pdu, 10 + 2 * (i - b)) else table[i])
      && 2 <= |rsp| && rsp[0] == 23 && rsp[1] == 2 * n && CarriesWords(rsp, 2, table'[a..a + n])
  }

  /** The function code decides which table is read or written, and the others stay as they are. */
  predicate AnsweredAs(t: Tables, t': Tables, pdu: seq<byte>, data: seq<byte>, rsp: seq<byte>)
    requires Shape(Indication, pdu)
  {
    var f := pdu[0];
    if f == 1 then t' == t && BitsAnswered(t.bits, pdu, rsp)
    else if f == 2 then t' == t && BitsAnswered(t.inputBits, pdu, rsp)
    else if f == 3 then t' == t && WordsAnswered(t.registers, pdu, rsp)
    else if f == 4 then t' == t && WordsAnswered(t.inputRegisters, pdu, rsp)
    else if f == 5 then t' == t.(bits := t'.bits) && CoilStored(t.bits, t'.bits, pdu, rsp)
    else if f == 6 then t' == t.(registers := t'.registers) && RegisterStored(t.registers, t'.registers, pdu, rsp)
    else if f == 15 then t' == t.(bits := t'.bits) && CoilsStored(t.bits, t'.bits, pdu, data, rsp)
    else if f == 16 then
      t' == t.(registers := t'.registers) && RegistersStored(t.registers, t'.registers, pdu, data, rsp)
    else if f == 17 then
      t' == t && rsp == [17, 10, 180, 255] + [76, 77, 66] + [51, 46, 48, 46, 53]
    else if f == 23 then t' == t.(registers := t'.registers) && StoredAndRead(t.registers, t'.registers, pdu, rsp)
    else t' == t && Refusal(pdu, rsp, 1)
  }

  /** What functions 15 and 16 store lies in the buffer `data` that begins with the PDU. */
  predicate Brings(t: Tables, pdu: seq<byte>, data: seq<byte>)
    requires Shape(Indication, pdu)
  {
    && (pdu[0] == 15 && Field(pdu, 1) + Field(pdu, 3) <= |t.bits| ==> 6 + (Field(pdu, 3) + 7) / 8 <= |data|)
    && (pdu[0] == 16 && Field(pdu, 1) + Field(pdu, 3) <= |t.registers| ==> 6 + 2 * Field(pdu, 3) <= |data|)
  }

  // ----- the server answers so

  lemma DataInNumbers(t: Tables, pdu: seq<byte>, after: seq<byte>)
    requires Shape(Indication, pdu)
    ensures Complete(Indication, pdu) && (DataInBuffer(t, pdu, after) <==> Brings(t, pdu, pdu + after))
  {
    ShapeIff(Indication, pdu);
    if 6 <= |pdu| {
      CountInNumbers(WordAt(pdu, 3));
    }
  }

  lemma PackedEntries(head: seq<byte>, tab: seq<byte>)
    requires ZeroOne(tab)
    ensures CarriesBits(head + IoStatus(tab), |head|, tab)
  {
    hide IoStatus, Pack, CarriesBits;
    IoStatusPacks(tab);
    PackedCarried(head, tab);
  }

  lemma BitsAreAnswered(table: seq<byte>, pdu: seq<byte>)
    requires |pdu| == 5 && pdu[0] < 128 && ZeroOne(table)
    ensures !ServeReadBits(table, pdu).Silence?
    ensures BitsAnswered(table, pdu, ResponsePdu(pdu[0], ServeReadBits(table, pdu)))
  {
    hide IoStatus, ByteCount, CarriesBits;
    var a: nat, n: nat := WordAt(pdu, 1), WordAt(pdu, 3);
    CountInNumbers(n);
    if 0 < n <= 2000 && a + n <= |table| {
      PackedEntries([pdu[0], ByteCount(n)], table[a..a + n]);
    }
  }

  lemma WordsAreAnswered(table: seq<word>, pdu: seq<byte>)
    requires |pdu| == 5 && pdu[0] < 128
    ensures !ServeReadRegisters(table, pdu).Silence?
    ensures WordsAnswered(table, pdu, ResponsePdu(pdu[0], ServeReadRegisters(table, pdu)))
  {
    hide WordBytes, CarriesWords;
    var a: nat, n: nat := WordAt(pdu, 1), WordAt(pdu, 3);
    if 0 < n <= 125 && a + n <= |table| {
      WordBytesCarried([pdu[0], 2 * n], table[a..a + n]);
    }
  }

  lemma OneIsStored(t: Tables, pdu: seq<byte>)
    requires |pdu| == 5
    ensures pdu[0] == 5 ==>
              var (table, answer) := ServeWriteBit(t.bits, pdu);
              !answer.Silence? && CoilStored(t.bits, table, pdu, ResponsePdu(pdu[0], answer))
    ensures pdu[0] == 6 ==>
              var (table, answer) := ServeWriteRegister(t.registers, pdu);
              !answer.Silence? && RegisterStored(t.registers, table, pdu, ResponsePdu(pdu[0], answer))
  {
  }

  lemma CoilsAreStored(table: seq<byte>, pdu: seq<byte>, after: seq<byte>)
    requires 6 <= |pdu| && pdu[0] == 15
    requires InTable(|table|, pdu) ==> 6 + ByteCount(WordAt(pdu, 3)) <= |pdu| + |after|
    ensures var (table', answer) := ServeWriteBits(table, pdu, after);
            !answer.Silence? && CoilsStored(table, table', pdu, pdu + after, ResponsePdu(pdu[0], answer))
  {
    hide Unpack, Bit, ByteCount;
    CountInNumbers(WordAt(pdu, 3));
    var a: nat, n: nat := WordAt(pdu, 1), WordAt(pdu, 3);
    if a + n <= |table| {
      var data, bytes := pdu + after, pdu[6..] + after;
      UnpackInNumbers(bytes, n);
      assert forall k :: 0 <= k < |bytes| ==> bytes[k] == data[6 + k];
    }
  }

  lemma RegistersAreStored(table: seq<word>, pdu: seq<byte>, after: seq<byte>)
    requires 6 <= |pdu| && pdu[0] == 16
    requires InTable(|table|, pdu) ==> 6 + 2 * WordAt(pdu, 3) <= |pdu| + |after|
    ensures var (table', answer) := ServeWriteRegisters(table, pdu, after);
            !answer.Silence? && RegistersStored(table, table', pdu, pdu + after, ResponsePdu(pdu[0], answer))
  {
    hide WordsOf;
    var a: nat, n: nat := WordAt(pdu, 1), WordAt(pdu, 3);
    if a + n <= |table| {
      var data, bytes := pdu + after, pdu[6..] + after;
      WordsInNumbers(bytes, n);
      assert forall k :: 0 <= k < |bytes| ==> bytes[k] == data[6 + k];
    }
  }

  lemma StoredAndAnswered(table: seq<word>, pdu: seq<byte>)
    requires 10 <= |pdu| && |pdu| - 10 == pdu[9] && pdu[0] == 23
    ensures var (table', answer) := ServeWriteAndRead(table, pdu);
            !answer.Silence? && StoredAndRead(table, table', pdu, ResponsePdu(pdu[0], answer))
  {
    hide WordBytes, CarriesWords;
    var (table', answer) := ServeWriteAndRead(table, pdu);
    var a: nat, n: nat, b: nat, m: nat := WordAt(pdu, 1), WordAt(pdu, 3), WordAt(pdu, 5), WordAt(pdu, 7);
    if answer.Normal? {
      forall k | 0 <= k < m
        ensures WordsOf(pdu[10..], m)[k] == Field(pdu, 10 + 2 * k)
      {
      }
      WordBytesCarried([pdu[0], 2 * n], table'[a..a + n]);
    }
  }

  /** The answer to any complete request but that of function 7, and the tables after it. */
  lemma ServeInNumbers(t: Tables, pdu: seq<byte>, after: seq<byte>)
    requires Shape(Indication, pdu) && Brings(t, pdu, pdu + after) && pdu[0] != 7
    requires ZeroOne(t.bits) && ZeroOne(t.inputBits)
    ensures Complete(Indication, pdu) && DataInBuffer(t, pdu, after)
    ensures var (t', answer) := ServeBuffer(t, pdu, after);
            !answer.Silence? && AnsweredAs(t, t', pdu, pdu + after, ResponsePdu(pdu[0], answer))
  {
    hide ServeReadBits, ServeReadRegisters, ServeWriteBit, ServeWriteRegister, ServeWriteAndRead;
    hide ServeWriteBits, ServeWriteRegisters, BitsAnswered, WordsAnswered, CoilStored, RegisterStored;
    hide CoilsStored, RegistersStored, StoredAndRead, ByteCount, ZeroOne;
    DataInNumbers(t, pdu, after);
    var f := pdu[0];
    if f == 1 { BitsAreAnswered(t.bits, pdu); }
    if f == 2 { BitsAreAnswered(t.inputBits, pdu); }
    if f == 3 { WordsAreAnswered(t.registers, pdu); }
    if f == 4 { WordsAreAnswered(t.inputRegisters, pdu); }
    if f == 5 || f == 6 { OneIsStored(t, pdu); }
    if f == 15 { CoilsAreStored(t.bits, pdu, after); }
    if f == 16 { RegistersAreStored(t.registers, pdu, after); }
    if f == 23 { StoredAndAnswered(t.registers, pdu); }
  }

  // ----- whole messages

  lemma TcpHeard(serverSlave: byte, t: Tables, req: seq<byte>, rest: seq<byte>)
    requires IsBuffered(Tcp, t, req, rest)
    ensures DataInBuffer(t, req[7..], rest)
    ensures var (t', answer) := ServeBuffer(t, req[7..], rest);
            && Answers(PduOf(Tcp, req), answer)
            && ReplyBuffer(Tcp, serverSlave, t, req, rest) == (t', ReplyMessage(Tcp, req, answer))
  {
    hide ServeBuffer, Complete, DataInBuffer, ReplyMessage;
    assert PduOf(Tcp, req) == req[7..] && AfterPdu(Tcp, req, rest) == rest;
    ServeAnswers(t, req[7..], rest);
  }

  /** Over TCP every request is heard, whatever its unit id and that of the server; all but function 7 are answered. */
  lemma TcpAnswersEveryUnit(serverSlave: byte, t: Tables, req: seq<byte>, rest: seq<byte>)
    requires IsBuffered(Tcp, t, req, rest)
    ensures DataInBuffer(t, req[7..], rest)
    ensures var (t', sent) := ReplyBuffer(Tcp, serverSlave, t, req, rest);
            t' == ServeBuffer(t, req[7..], rest).0 && (sent == [] <==> req[7] == 7)
  {
    hide ServeBuffer, Complete, DataInBuffer, ReplyMessage;
    assert PduOf(Tcp, req) == req[7..];
    TcpHeard(serverSlave, t, req, rest);
    SilentIff(t, req[7..], rest);
    SentSomething(Tcp, req, ServeBuffer(t, req[7..], rest).1);
  }

  lemma SentSomething(be: Backend, req: seq<byte>, answer: Answer)
    requires be.HeaderLength() + be.ChecksumLength() < |req| <= be.MaxAduLength()
    requires Answers(PduOf(be, req), answer)
    ensures ReplyMessage(be, req, answer) == [] <==> answer.Silence?
  {
    hide Crc16, Finish, CheckIntegrity;
    if !answer.Silence? {
      ReplyParts(be, req, answer);
    }
  }

  /** Over RTU a server hears its own id and 0, and nothing else. */
  lemma RtuAnswersOwnAndBroadcast(serverSlave: byte, t: Tables, req: seq<byte>, rest: seq<byte>)
    requires IsBuffered(Rtu, t, req, rest)
    ensures var n := |req| - 2; DataInBuffer(t, req[1..n], req[n..] + rest)
    ensures var (t', sent), n := ReplyBuffer(Rtu, serverSlave, t, req, rest), |req| - 2;
            if req[0] == serverSlave || req[0] == 0 then
              t' == ServeBuffer(t, req[1..n], req[n..] + rest).0 && (sent == [] <==> req[1] == 7)
            else t' == t && sent == []
  {
    hide ServeBuffer, Complete, DataInBuffer, ReplyMessage;
    var pdu, after := PduOf(Rtu, req), AfterPdu(Rtu, req, rest);
    ServeAnswers(t, pdu, after);
    SilentIff(t, pdu, after);
    SentSomething(Rtu, req, ServeBuffer(t, pdu, after).1);
  }

  /** The header of an answer is that of its request, and tells the length of the answer. */
  predicate Returned(be: Backend, req: seq<byte>, sent: seq<byte>)
    requires 7 < |req| || (be.Rtu? && 1 < |req|)
  {
    if be.Rtu? then 3 < |sent| <= 256 && sent[0] == req[0] && GoodChecksum(sent)
    else
      && 7 < |sent| <= 260 && sent[0] == req[0] && sent[1] == req[1] && sent[6] == req[6]
      && Field(sent, 4) == |sent| - 6
      && ((sent[2] == 0 && sent[3] == 0) || (sent[2] == req[2] && sent[3] == req[3]))
  }

  lemma EchoReturns(be: Backend, req: seq<byte>)
    requires be.HeaderLength() + be.ChecksumLength() < |req| <= be.MaxAduLength()
    ensures Returned(be, req, Finish(be, req[..|req| - be.ChecksumLength()]))
  {
    hide Crc16, GoodChecksum, CheckIntegrity;
    var sent := Finish(be, req[..|req| - be.ChecksumLength()]);
    FinishKeepsParts(be, req);
    GoodChecksumIff(sent);
    if be.Tcp? {
      WordOfHiLo(|sent| - 6);
    }
  }

  lemma FrameReturns(be: Backend, req: seq<byte>, pdu: seq<byte>)
    requires be.HeaderLength() + be.ChecksumLength() < |req| <= be.MaxAduLength()
    requires 1 <= |pdu| <= 252
    ensures Returned(be, req, Frame(be, TidOf(be, req), req[be.HeaderLength() - 1], pdu))
  {
    hide Crc16, GoodChecksum, CheckIntegrity;
    var tid, slave := TidOf(be, req), req[be.HeaderLength() - 1];
    var sent := Frame(be, tid, slave, pdu);
    FrameParts(be, tid, slave, pdu);
    GoodChecksumIff(sent);
    if be.Tcp? {
      TcpFrameBytes(tid, slave, pdu);
    }
  }

  lemma ReplyReturns(be: Backend, req: seq<byte>, answer: Answer)
    requires be.HeaderLength() + be.ChecksumLength() < |req| <= be.MaxAduLength()
    requires Answers(PduOf(be, req), answer) && !answer.Silence?
    ensures Returned(be, req, ReplyMessage(be, req, answer))
  {
    hide Finish, Frame, Returned;
    var f := PduOf(be, req)[0];
    if Echoes(f, answer) {
      EchoReturns(be, req);
    } else {
      FrameReturns(be, req, ResponsePdu(f, answer));
    }
  }

  /** The PDU of a message, and what follows it in a buffer where `rest` follows the message. */
  function Body(be: Backend, m: seq<byte>): seq<byte>
    requires 7 < |m| || (be.Rtu? && 3 < |m|)
  {
    if be.Rtu? then m[1..|m| - 2] else m[7..]
  }

  function Behind(be: Backend, m: seq<byte>, rest: seq<byte>): seq<byte>
    requires 3 < |m|
  {
    if be.Rtu? then m[|m| - 2..] + rest else rest
  }

  /** The message that answers a request. */
  predicate RepliedAs(be: Backend, t: Tables, t': Tables, req: seq<byte>, rest: seq<byte>, sent: seq<byte>)
    requires Whole(be, Indication, req)
  {
    && Returned(be, req, sent)
    && AnsweredAs(t, t', Body(be, req), Body(be, req) + Behind(be, req, rest), Body(be, sent))
  }

  /** `modbus_reply`, for any request in the buffer: heard or not, what it sends and what it stores. */
  lemma ReplyInNumbers(be: Backend, serverSlave: byte, t: Tables, req: seq<byte>, rest: seq<byte>)
    requires Whole(be, Indication, req) && Brings(t, Body(be, req), Body(be, req) + Behind(be, req, rest))
    requires ZeroOne(t.bits) && ZeroOne(t.inputBits)
    ensures IsBuffered(be, t, req, rest)
    ensures var (t', sent) := ReplyBuffer(be, serverSlave, t, req, rest);
            if be.Rtu? && req[0] != serverSlave && req[0] != 0 then t' == t && sent == []
            else if Body(be, req)[0] == 7 then t' == t && sent == []
            else RepliedAs(be, t, t', req, rest, sent)
  {
    hide Shape, Complete, ServeBuffer, DataInBuffer, ReplyMessage, AnsweredAs, Returned, ZeroOne, Brings;
    WholeParts(be, Indication, req);
    var pdu, after := PduOf(be, req), AfterPdu(be, req, rest);
    assert pdu == Body(be, req) && after == Behind(be, req, rest);
    DataInNumbers(t, pdu, after);
    ServeAnswers(t, pdu, after);
    if pdu[0] == 7 {
      SilentIff(t, pdu, after);
      ExceptionChangesNothing(t, pdu, after);
      SentSomething(be, req, ServeBuffer(t, pdu, after).1);
    } else {
      ServeInNumbers(t, pdu, after);
      var answer := ServeBuffer(t, pdu, after).1;
      ReplyReturns(be, req, answer);
      ReplyParts(be, req, answer);
      assert Body(be, ReplyMessage(be, req, answer)) == PduOf(be, ReplyMessage(be, req, answer));
    }
  }
}
