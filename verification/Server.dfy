/**
 `modbus_reply` as the library runs it: over a request buffer, a response buffer and the tables of a
 mapping, all updated in place.  Its contract is `ServerModel.ReplyBuffer`.
 */
module Server {
  import opened Bytes
  import opened Bits
  import opened BitPacking
  import opened Crc
  import opened Protocol
  import opened Receiver
  import opened ServerModel

  // ----- sending

  /** `send_msg_pre` of the two backends. */
  method SendMsgPre(be: Backend, msg: array<byte>, length: nat) returns (n: nat)
    requires be.HeaderLength() <= length < 0x1_0000 && length + be.ChecksumLength() <= msg.Length
    modifies msg
    ensures n == length + be.ChecksumLength()
    ensures msg[..n] == Finish(be, old(msg[..length]))
  {
    hide Crc16;
    match be
    case Rtu =>
      var crc := Crc16Loop(msg, length);
      msg[length] := Hi(crc);
      msg[length + 1] := Lo(crc);
      n := length + 2;
      assert msg[..n] == old(msg[..length]) + [Hi(crc), Lo(crc)];
    case Tcp =>
      var mbapLength := length - 6;
      msg[4] := Hi(mbapLength);
      msg[5] := Lo(mbapLength);
      n := length;
  }

  /** `send_msg`, on a link that takes everything. */
  method SendMsg(be: Backend, msg: array<byte>, length: nat, out: Stream)
    requires be.HeaderLength() <= length < 0x1_0000 && length + be.ChecksumLength() <= msg.Length
    modifies msg, out
    ensures out.pending == old(out.pending) + Finish(be, old(msg[..length]))
  {
    hide Crc16;
    var n := SendMsgPre(be, msg, length);
    out.pending := out.pending + msg[..n];
  }

  // ----- the tables

  /** `modbus_mapping_t`. */
  class Mapping {
    const tabBits: array<byte>
    const tabInputBits: array<byte>
    const tabRegisters: array<word>
    const tabInputRegisters: array<word>

    ghost predicate Valid() {
      && tabBits != tabInputBits && tabRegisters != tabInputRegisters
      && (tabBits as object) != tabRegisters && (tabBits as object) != tabInputRegisters
      && (tabInputBits as object) != tabRegisters && (tabInputBits as object) != tabInputRegisters
    }

    ghost function Contents(): Tables
      reads tabBits, tabInputBits, tabRegisters, tabInputRegisters
    {
      Tables(tabBits[..], tabInputBits[..], tabRegisters[..], tabInputRegisters[..])
    }

    /** `modbus_mapping_new`, when memory is to be had. */
    constructor New(nbBits: nat, nbInputBits: nat, nbRegisters: nat, nbInputRegisters: nat)
      ensures Valid()
      ensures fresh(tabBits) && fresh(tabInputBits) && fresh(tabRegisters) && fresh(tabInputRegisters)
      ensures |Contents().bits| == nbBits && |Contents().inputBits| == nbInputBits
      ensures |Contents().registers| == nbRegisters && |Contents().inputRegisters| == nbInputRegisters
      ensures forall i :: 0 <= i < nbBits ==> Contents().bits[i] == 0
      ensures forall i :: 0 <= i < nbInputBits ==> Contents().inputBits[i] == 0
      ensures forall i :: 0 <= i < nbRegisters ==> Contents().registers[i] == 0
      ensures forall i :: 0 <= i < nbInputRegisters ==> Contents().inputRegisters[i] == 0
    {
      tabBits := new byte[nbBits](_ => 0);
      tabInputBits := new byte[nbInputBits](_ => 0);
      tabRegisters := new word[nbRegisters](_ => 0);
      tabInputRegisters := new word[nbInputRegisters](_ => 0);
    }
  }

  // ----- building a response

  /** `sft_t`: slave, function and transaction id of a request. */
  datatype Sft = Sft(slave: byte, functionCode: byte, tid: word)

  /** The fields a response takes over from the request `msg`. */
  predicate SftOf(be: Backend, sft: Sft, msg: seq<byte>) {
    && be.HeaderLength() + be.ChecksumLength() < |msg| <= be.MaxAduLength()
    && sft == Sft(msg[be.HeaderLength() - 1], msg[be.HeaderLength()], TidOf(be, msg))
  }

  /** `m` is what the response to `msg` looks like before `send_msg_pre`. */
  predicate Prepared(be: Backend, m: seq<byte>, msg: seq<byte>, answer: Answer)
    requires be.HeaderLength() + be.ChecksumLength() < |msg| <= be.MaxAduLength()
    requires !answer.Silence?
  {
    var h, f := be.HeaderLength(), PduOf(be, msg)[0];
    if Echoes(f, answer) then m == msg[..|msg| - be.ChecksumLength()]
    else IsMessage(be, m, TidOf(be, msg), msg[h - 1], ResponsePdu(f, answer))
  }

  lemma PreparedIsReply(be: Backend, m: seq<byte>, msg: seq<byte>, answer: Answer)
    requires be.HeaderLength() + be.ChecksumLength() < |msg| <= be.MaxAduLength()
    requires Answers(PduOf(be, msg), answer) && !answer.Silence?
    requires Prepared(be, m, msg, answer)
    ensures be.HeaderLength() <= |m| && |m| + be.ChecksumLength() <= be.MaxAduLength()
    ensures Finish(be, m) == ReplyMessage(be, msg, answer)
  {
    hide Crc16;
    var f := PduOf(be, msg)[0];
    if !Echoes(f, answer) {
      var pdu := ResponsePdu(f, answer);
      assert |m| == be.HeaderLength() + |pdu|;
      FinishIsFrame(be, m, TidOf(be, msg), msg[be.HeaderLength() - 1], pdu);
    }
  }

  /** `build_response_basis` of the two backends. */
  method BuildResponseBasis(be: Backend, sft: Sft, rsp: array<byte>) returns (n: nat)
    requires MAX_MESSAGE_LENGTH <= rsp.Length
    modifies rsp
    ensures n == be.HeaderLength() + 1
    ensures IsMessage(be, rsp[..n], sft.tid, sft.slave, [sft.functionCode])
  {
    match be
    case Rtu =>
      rsp[0] := sft.slave;
      rsp[1] := sft.functionCode;
      n := 2;
    case Tcp =>
      rsp[0], rsp[1] := Hi(sft.tid), Lo(sft.tid);
      rsp[2], rsp[3] := 0, 0;
      rsp[6] := sft.slave;
      rsp[7] := sft.functionCode;
      n := 8;
  }

  /** A longer message with the same header. */
  lemma MessageExtends(be: Backend, m: seq<byte>, m': seq<byte>, tid: word, slave: byte, pdu: seq<byte>,
                       more: seq<byte>)
    requires IsMessage(be, m, tid, slave, pdu) && m' == m + more
    ensures IsMessage(be, m', tid, slave, pdu + more)
  {
    var h := be.HeaderLength();
    assert m'[..h] == m[..h];
  }

  /** `response_exception`. */
  method ResponseException(be: Backend, sft: Sft, code: byte, rsp: array<byte>) returns (n: nat)
    requires MAX_MESSAGE_LENGTH <= rsp.Length
    modifies rsp
    ensures be.HeaderLength() < n <= 9
    ensures IsMessage(be, rsp[..n], sft.tid, sft.slave, ResponsePdu(sft.functionCode, Exception(code)))
  {
    n := BuildResponseBasis(be, sft.(functionCode := ExceptionFunction(sft.functionCode)), rsp);
    ghost var m := rsp[..n];
    rsp[n] := code;
    MessageExtends(be, m, rsp[..n + 1], sft.tid, sft.slave, [ExceptionFunction(sft.functionCode)], [code]);
    n := n + 1;
  }

  /** A response prepared in `rsp[..n]`, which fits its buffer. */
  ghost predicate Ready(be: Backend, rsp: array<byte>, n: nat, msg: seq<byte>, answer: Answer)
    requires be.HeaderLength() + be.ChecksumLength() < |msg| <= be.MaxAduLength()
    requires !answer.Silence?
    reads rsp
  {
    && be.HeaderLength() <= n && n + be.ChecksumLength() <= MAX_MESSAGE_LENGTH <= rsp.Length
    && Prepared(be, rsp[..n], msg, answer)
  }

  /** The request buffer holds `msg`. */
  ghost predicate Holds(req: array<byte>, msg: seq<byte>)
    reads req
  {
    |msg| <= req.Length && req[..|msg|] == msg
  }

  lemma FieldsOf(be: Backend, req: array<byte>, msg: seq<byte>, i: nat)
    requires Holds(req, msg) && be.HeaderLength() + be.ChecksumLength() <= |msg|
    requires i < |PduOf(be, msg)|
    ensures req[be.HeaderLength() + i] == PduOf(be, msg)[i]
  {
    assert req[..|msg|][be.HeaderLength() + i] == PduOf(be, msg)[i];
  }

  lemma WordFieldOf(be: Backend, req: array<byte>, msg: seq<byte>, i: nat)
    requires Holds(req, msg) && be.HeaderLength() + be.ChecksumLength() <= |msg|
    requires i + 1 < |PduOf(be, msg)|
    ensures Word(req[be.HeaderLength() + i], req[be.HeaderLength() + i + 1]) == WordAt(PduOf(be, msg), i)
  {
    FieldsOf(be, req, msg, i);
    FieldsOf(be, req, msg, i + 1);
  }

  // ----- the cases of the switch

  /** Any case that ends in `response_exception`. */
  method ReplyException(be: Backend, sft: Sft, code: byte, rsp: array<byte>, ghost msg: seq<byte>) returns (n: nat)
    requires MAX_MESSAGE_LENGTH <= rsp.Length && SftOf(be, sft, msg)
    modifies rsp
    ensures Ready(be, rsp, n, msg, Exception(code))
  {
    n := ResponseException(be, sft, code, rsp);
  }

  lemma ReadyNormal(be: Backend, rsp: array<byte>, n: nat, sft: Sft, msg: seq<byte>, pdu: seq<byte>)
    requires SftOf(be, sft, msg) && !Echoes(sft.functionCode, Normal(pdu))
    requires n <= MAX_MESSAGE_LENGTH <= rsp.Length && |pdu| <= 252
    requires IsMessage(be, rsp[..n], sft.tid, sft.slave, pdu)
    ensures Ready(be, rsp, n, msg, Normal(pdu))
  {
    assert |rsp[..n]| == be.HeaderLength() + |pdu|;
  }

  /** A response that starts with its function code and a byte count. */
  method BuildCounted(be: Backend, sft: Sft, count: byte, rsp: array<byte>) returns (n: nat)
    requires MAX_MESSAGE_LENGTH <= rsp.Length
    modifies rsp
    ensures n == be.HeaderLength() + 2
    ensures IsMessage(be, rsp[..n], sft.tid, sft.slave, [sft.functionCode, count])
  {
    n := BuildResponseBasis(be, sft, rsp);
    ghost var m := rsp[..n];
    rsp[n] := count;
    MessageExtends(be, m, rsp[..n + 1], sft.tid, sft.slave, [sft.functionCode], [count]);
    n := n + 1;
  }

  /** The normal answer to a request that reads bits. */
  method BuildBits(be: Backend, sft: Sft, table: array<byte>, address: nat, nb: nat, rsp: array<byte>)
    returns (n: nat)
    requires MAX_MESSAGE_LENGTH <= rsp.Length && rsp != table
    requires address + nb <= table.Length && ByteCount(nb) <= 250
    modifies rsp
    ensures n == be.HeaderLength() + 2 + ByteCount(nb)
    ensures IsMessage(be, rsp[..n], sft.tid, sft.slave,
                      [sft.functionCode, ByteCount(nb)] + IoStatus(table[address..address + nb]))
  {
    hide IoStatus, ByteCount;
    var start := BuildCounted(be, sft, ByteCount(nb), rsp);
    ghost var m := rsp[..start];
    n := ResponseIoStatus(address, nb, table, rsp, start);
    assert rsp[..n] == m + rsp[start..n];
    MessageExtends(be, m, rsp[..n], sft.tid, sft.slave, [sft.functionCode, ByteCount(nb)], rsp[start..n]);
  }

  /** `_FC_READ_COILS` and `_FC_READ_DISCRETE_INPUTS`. */
  method ReplyReadBits(be: Backend, sft: Sft, req: array<byte>, table: array<byte>, rsp: array<byte>,
                       ghost msg: seq<byte>)
    returns (n: nat)
    requires Holds(req, msg) && SftOf(be, sft, msg) && |PduOf(be, msg)| == 5
    requires sft.functionCode == FC_READ_COILS || sft.functionCode == FC_READ_DISCRETE_INPUTS
    requires MAX_MESSAGE_LENGTH <= rsp.Length && rsp != req && rsp != table
    modifies rsp
    ensures Ready(be, rsp, n, msg, ServeReadBits(table[..], PduOf(be, msg)))
  {
    hide IoStatus, ByteCount, Ready, IsMessage;
    var offset := be.HeaderLength();
    WordFieldOf(be, req, msg, 1);
    WordFieldOf(be, req, msg, 3);
    var address := Word(req[offset + 1], req[offset + 2]);
    var nb: nat := Word(req[offset + 3], req[offset + 4]);
    if nb < 1 || MAX_READ_BITS < nb {
      n := ReplyException(be, sft, ILLEGAL_DATA_VALUE, rsp, msg);
    } else if table.Length < address + nb {
      n := ReplyException(be, sft, ILLEGAL_DATA_ADDRESS, rsp, msg);
    } else {
      ByteCountFits();
      n := BuildBits(be, sft, table, address, nb, rsp);
      assert table[..][address..address + nb] == table[address..address + nb];
      ReadyNormal(be, rsp, n, sft, msg, [sft.functionCode, ByteCount(nb)] + IoStatus(table[address..address + nb]));
    }
  }

  /** The loop that stores registers into a response, high byte first. */
  method PutRegisters(table: array<word>, address: nat, nb: nat, rsp: array<byte>, offset: nat) returns (end: nat)
    requires address + nb <= table.Length && offset + 2 * nb <= rsp.Length
    requires (rsp as object) != table
    modifies rsp
    ensures end == offset + 2 * nb
    ensures rsp[offset..end] == WordBytes(table[address..address + nb])
    ensures rsp[..offset] == old(rsp[..offset]) && rsp[end..] == old(rsp[end..])
  {
    end := offset;
    for i := address to address + nb
      invariant end == offset + 2 * (i - address)
      invariant forall k :: 0 <= k < i - address ==>
                  rsp[offset + 2 * k] == Hi(table[address + k]) && rsp[offset + 2 * k + 1] == Lo(table[address + k])
      invariant forall k :: 0 <= k < rsp.Length && !(offset <= k < end) ==> rsp[k] == old(rsp[k])
    {
      rsp[end] := Hi(table[i]);
      end := end + 1;
      rsp[end] := Lo(table[i]);
      end := end + 1;
    }
    WordBytesAre(rsp[offset..end], table[address..address + nb]);
  }

  lemma WordBytesAre(s: seq<byte>, ws: seq<word>)
    requires |s| == 2 * |ws|
    requires forall k :: 0 <= k < |ws| ==> s[2 * k] == Hi(ws[k]) && s[2 * k + 1] == Lo(ws[k])
    ensures s == WordBytes(ws)
  {
    forall i | 0 <= i < |s|
      ensures s[i] == WordBytes(ws)[i]
    {
      var k := i / 2;
      assert i == 2 * k || i == 2 * k + 1;
    }
  }

  /** The normal answer to a request that reads registers. */
  method BuildRegisters(be: Backend, sft: Sft, table: array<word>, address: nat, nb: nat, rsp: array<byte>)
    returns (n: nat)
    requires MAX_MESSAGE_LENGTH <= rsp.Length && (rsp as object) != table
    requires address + nb <= table.Length && nb <= MAX_READ_REGISTERS
    modifies rsp
    ensures n == be.HeaderLength() + 2 + 2 * nb
    ensures IsMessage(be, rsp[..n], sft.tid, sft.slave,
                      [sft.functionCode, 2 * nb] + WordBytes(table[address..address + nb]))
  {
    hide WordBytes;
    var start := BuildCounted(be, sft, 2 * nb, rsp);
    ghost var m := rsp[..start];
    n := PutRegisters(table, address, nb, rsp, start);
    assert rsp[..n] == m + rsp[start..n];
    MessageExtends(be, m, rsp[..n], sft.tid, sft.slave, [sft.functionCode, 2 * nb], rsp[start..n]);
  }

  /** `_FC_READ_HOLDING_REGISTERS` and `_FC_READ_INPUT_REGISTERS`. */
  method ReplyReadRegisters(be: Backend, sft: Sft, req: array<byte>, table: array<word>, rsp: array<byte>,
                            ghost msg: seq<byte>)
    returns (n: nat)
    requires Holds(req, msg) && SftOf(be, sft, msg) && |PduOf(be, msg)| == 5
    requires sft.functionCode == FC_READ_HOLDING_REGISTERS || sft.functionCode == FC_READ_INPUT_REGISTERS
    requires MAX_MESSAGE_LENGTH <= rsp.Length && rsp != req && (rsp as object) != table
    modifies rsp
    ensures Ready(be, rsp, n, msg, ServeReadRegisters(table[..], PduOf(be, msg)))
  {
    hide WordBytes, Ready, IsMessage;
    var offset := be.HeaderLength();
    WordFieldOf(be, req, msg, 1);
    WordFieldOf(be, req, msg, 3);
    var address := Word(req[offset + 1], req[offset + 2]);
    var nb: nat := Word(req[offset + 3], req[offset + 4]);
    if nb < 1 || MAX_READ_REGISTERS < nb {
      n := ReplyException(be, sft, ILLEGAL_DATA_VALUE, rsp, msg);
    } else if table.Length < address + nb {
      n := ReplyException(be, sft, ILLEGAL_DATA_ADDRESS, rsp, msg);
    } else {
      n := BuildRegisters(be, sft, table, address, nb, rsp);
      assert table[..][address..address + nb] == table[address..address + nb];
      ReadyNormal(be, rsp, n, sft, msg, [sft.functionCode, 2 * nb] + WordBytes(table[address..address + nb]));
    }
  }

  /** `memcpy(rsp, req, req_length)`, after `prepare_response_tid` has taken the checksum off the length. */
  method EchoRequest(be: Backend, req: array<byte>, rsp: array<byte>, ghost msg: seq<byte>, reqLength: nat)
    returns (n: nat)
    requires Holds(req, msg) && be.HeaderLength() + be.ChecksumLength() < |msg| <= be.MaxAduLength()
    requires reqLength == |msg| - be.ChecksumLength()
    requires MAX_MESSAGE_LENGTH <= rsp.Length && rsp != req
    modifies rsp
    ensures n == reqLength && rsp[..n] == msg[..reqLength]
  {
    forall i | 0 <= i < reqLength {
      rsp[i] := req[i];
    }
    n := reqLength;
    assert rsp[..n] == req[..|msg|][..n];
  }

  lemma ReadyEcho(be: Backend, rsp: array<byte>, n: nat, sft: Sft, msg: seq<byte>)
    requires SftOf(be, sft, msg) && Echoes(sft.functionCode, Normal(PduOf(be, msg)))
    requires n == |msg| - be.ChecksumLength() && MAX_MESSAGE_LENGTH <= rsp.Length
    requires rsp[..n] == msg[..n]
    ensures Ready(be, rsp, n, msg, Normal(PduOf(be, msg)))
  {
  }

  /** `_FC_WRITE_SINGLE_COIL`. */
  method ReplyWriteBit(be: Backend, sft: Sft, req: array<byte>, reqLength: nat, table: array<byte>, rsp: array<byte>,
                       ghost msg: seq<byte>)
    returns (n: nat)
    requires Holds(req, msg) && SftOf(be, sft, msg) && |PduOf(be, msg)| == 5
    requires sft.functionCode == FC_WRITE_SINGLE_COIL && reqLength == |msg| - be.ChecksumLength()
    requires MAX_MESSAGE_LENGTH <= rsp.Length && rsp != req && rsp != table && req != table
    modifies rsp, table
    ensures var (t', answer) := ServeWriteBit(old(table[..]), PduOf(be, msg));
            table[..] == t' && Ready(be, rsp, n, msg, answer)
  {
    hide Ready;
    var offset := be.HeaderLength();
    WordFieldOf(be, req, msg, 1);
    WordFieldOf(be, req, msg, 3);
    var address := Word(req[offset + 1], req[offset + 2]);
    if table.Length <= address {
      n := ReplyException(be, sft, ILLEGAL_DATA_ADDRESS, rsp, msg);
    } else {
      var data := Word(req[offset + 3], req[offset + 4]);
      if data == 0xFF00 || data == 0 {
        table[address] := if data != 0 then 1 else 0;
        assert table[..] == old(table[..])[address := Unit(data != 0)];
        n := EchoRequest(be, req, rsp, msg, reqLength);
        ReadyEcho(be, rsp, n, sft, msg);
      } else {
        n := ReplyException(be, sft, ILLEGAL_DATA_VALUE, rsp, msg);
      }
    }
  }

  /** `_FC_WRITE_SINGLE_REGISTER`. */
  method ReplyWriteRegister(be: Backend, sft: Sft, req: array<byte>, reqLength: nat, table: array<word>,
                            rsp: array<byte>,
                            ghost msg: seq<byte>)
    returns (n: nat)
    requires Holds(req, msg) && SftOf(be, sft, msg) && |PduOf(be, msg)| == 5
    requires sft.functionCode == FC_WRITE_SINGLE_REGISTER && reqLength == |msg| - be.ChecksumLength()
    requires MAX_MESSAGE_LENGTH <= rsp.Length && rsp != req && (rsp as object) != table && (req as object) != table
    modifies rsp, table
    ensures var (t', answer) := ServeWriteRegister(old(table[..]), PduOf(be, msg));
            table[..] == t' && Ready(be, rsp, n, msg, answer)
  {
    hide Ready;
    var offset := be.HeaderLength();
    WordFieldOf(be, req, msg, 1);
    WordFieldOf(be, req, msg, 3);
    var address := Word(req[offset + 1], req[offset + 2]);
    if table.Length <= address {
      n := ReplyException(be, sft, ILLEGAL_DATA_ADDRESS, rsp, msg);
    } else {
      var data := Word(req[offset + 3], req[offset + 4]);
      table[address] := data;
      assert table[..] == old(table[..])[address := data];
      n := EchoRequest(be, req, rsp, msg, reqLength);
      ReadyEcho(be, rsp, n, sft, msg);
    }
  }

  /** The answer to a multiple write: the first five bytes of the request's PDU. */
  method ReplyWritten(be: Backend, sft: Sft, req: array<byte>, rsp: array<byte>, ghost msg: seq<byte>) returns (n: nat)
    requires Holds(req, msg) && SftOf(be, sft, msg) && 5 <= |PduOf(be, msg)|
    requires sft.functionCode == FC_WRITE_MULTIPLE_COILS || sft.functionCode == FC_WRITE_MULTIPLE_REGISTERS
    requires MAX_MESSAGE_LENGTH <= rsp.Length && rsp != req
    modifies rsp
    ensures Ready(be, rsp, n, msg, Normal(PduOf(be, msg)[..5]))
  {
    hide Ready, IsMessage;
    n := BuildResponseBasis(be, sft, rsp);
    ghost var m, pdu, offset := rsp[..n], PduOf(be, msg), be.HeaderLength();
    forall i | 0 <= i < 4 {
      rsp[n + i] := req[n + i];
    }
    n := n + 4;
    DataOf(be, req, msg, 1, 4);
    assert pdu[1..][..4] == pdu[1..5];
    StoredSlice(rsp[..], offset + 1, n, req[offset + 1..n]);
    assert rsp[..n] == m + pdu[1..5];
    MessageExtends(be, m, rsp[..n], sft.tid, sft.slave, [sft.functionCode], pdu[1..5]);
    FieldsOf(be, req, msg, 0);
    assert [sft.functionCode] + pdu[1..5] == pdu[..5];
    ReadyNormal(be, rsp, n, sft, msg, pdu[..5]);
  }

  /** `_FC_WRITE_MULTIPLE_COILS`. */
  method ReplyWriteBits(be: Backend, sft: Sft, req: array<byte>, table: array<byte>, rsp: array<byte>,
                        ghost msg: seq<byte>)
    returns (n: nat)
    requires Holds(req, msg) && SftOf(be, sft, msg) && 6 <= |PduOf(be, msg)|
    requires InTable(table.Length, PduOf(be, msg)) ==>
               be.HeaderLength() + 6 + ByteCount(WordAt(PduOf(be, msg), 3)) <= req.Length
    requires sft.functionCode == FC_WRITE_MULTIPLE_COILS
    requires MAX_MESSAGE_LENGTH <= rsp.Length && rsp != req && rsp != table && req != table
    modifies rsp, table
    ensures var (t', answer) := ServeWriteBits(old(table[..]), PduOf(be, msg), AfterPdu(be, msg, req[|msg|..]));
            table[..] == t' && Ready(be, rsp, n, msg, answer)
  {
    hide IsMessage, Ready, ByteCount, Unpack;
    var offset := be.HeaderLength();
    WordFieldOf(be, req, msg, 1);
    WordFieldOf(be, req, msg, 3);
    var address := Word(req[offset + 1], req[offset + 2]);
    var nb: nat := Word(req[offset + 3], req[offset + 4]);
    if table.Length < address + nb {
      n := ReplyException(be, sft, ILLEGAL_DATA_ADDRESS, rsp, msg);
    } else {
      ghost var pdu := PduOf(be, msg);
      BufferOf(be, req, msg, 6, ByteCount(nb));
      SetBitsFromBytes(table, address, nb, req[offset + 6..offset + 6 + ByteCount(nb)]);
      UnpackPrefix(pdu[6..] + AfterPdu(be, msg, req[|msg|..]), nb);
      n := ReplyWritten(be, sft, req, rsp, msg);
    }
  }

  lemma UnpackPrefix(bytes: seq<byte>, nb: nat)
    requires ByteCount(nb) <= |bytes|
    ensures Unpack(bytes[..ByteCount(nb)], nb) == Unpack(bytes, nb)
  {
    hide BitOf;
  }

  lemma DataOf(be: Backend, req: array<byte>, msg: seq<byte>, i: nat, n: nat)
    requires Holds(req, msg) && be.HeaderLength() + be.ChecksumLength() <= |msg|
    requires i + n <= |PduOf(be, msg)|
    ensures be.HeaderLength() + i + n <= req.Length
    ensures req[be.HeaderLength() + i..be.HeaderLength() + i + n] == PduOf(be, msg)[i..][..n]
  {
    var h := be.HeaderLength();
    SliceOfSlice(msg, h, |msg| - be.ChecksumLength(), i, n);
    SliceOfSlice(req[..], h, |msg|, i, n);
  }

  /** The same for data that may run on behind the PDU. */
  lemma BufferOf(be: Backend, req: array<byte>, msg: seq<byte>, i: nat, n: nat)
    requires Holds(req, msg) && be.HeaderLength() + be.ChecksumLength() <= |msg|
    requires i <= |PduOf(be, msg)| && be.HeaderLength() + i + n <= req.Length
    ensures |PduOf(be, msg)| + |AfterPdu(be, msg, req[|msg|..])| == req.Length - be.HeaderLength()
    ensures req[be.HeaderLength() + i..be.HeaderLength() + i + n] ==
            (PduOf(be, msg)[i..] + AfterPdu(be, msg, req[|msg|..]))[..n]
  {
    var h := be.HeaderLength();
    var p := |msg| - be.ChecksumLength();
    assert req[..][h..p] == PduOf(be, msg) by {
      assert req[..|msg|][h..p] == req[..][h..p];
    }
    assert req[..][p..|msg|] == msg[p..] by {
      assert req[..|msg|][p..] == req[..][p..|msg|];
    }
    SliceAcross(req[..], h, p, |msg|, i, n);
  }

  /** The loop that takes registers from a request, high byte first. */
  method TakeRegisters(table: array<word>, address: nat, nb: nat, req: array<byte>, offset: nat)
    requires address + nb <= table.Length && offset + 2 * nb <= req.Length
    requires (req as object) != table
    modifies table
    ensures table[..] == Splice(old(table[..]), address, WordsOf(req[offset..offset + 2 * nb], nb))
  {
    var j := offset;
    for i := address to address + nb
      invariant j == offset + 2 * (i - address)
      invariant forall k :: 0 <= k < table.Length ==>
                  table[k] == if address <= k < i
                              then Word(req[offset + 2 * (k - address)], req[offset + 2 * (k - address) + 1])
                              else old(table[k])
    {
      table[i] := Word(req[j], req[j + 1]);
      j := j + 2;
    }
  }

  lemma WordsOfPrefix(s: seq<byte>, nb: nat)
    requires 2 * nb <= |s|
    ensures WordsOf(s[..2 * nb], nb) == WordsOf(s, nb)
  {
  }

  /** `_FC_WRITE_MULTIPLE_REGISTERS`. */
  method ReplyWriteRegisters(be: Backend, sft: Sft, req: array<byte>, table: array<word>, rsp: array<byte>,
                             ghost msg: seq<byte>)
    returns (n: nat)
    requires Holds(req, msg) && SftOf(be, sft, msg) && 6 <= |PduOf(be, msg)|
    requires InTable(table.Length, PduOf(be, msg)) ==>
               be.HeaderLength() + 6 + 2 * WordAt(PduOf(be, msg), 3) <= req.Length
    requires sft.functionCode == FC_WRITE_MULTIPLE_REGISTERS
    requires MAX_MESSAGE_LENGTH <= rsp.Length && rsp != req && (rsp as object) != table && (req as object) != table
    modifies rsp, table
    ensures var (t', answer) := ServeWriteRegisters(old(table[..]), PduOf(be, msg), AfterPdu(be, msg, req[|msg|..]));
            table[..] == t' && Ready(be, rsp, n, msg, answer)
  {
    hide IsMessage, Ready, WordsOf, Splice;
    var offset := be.HeaderLength();
    WordFieldOf(be, req, msg, 1);
    WordFieldOf(be, req, msg, 3);
    var address := Word(req[offset + 1], req[offset + 2]);
    var nb: nat := Word(req[offset + 3], req[offset + 4]);
    if table.Length < address + nb {
      n := ReplyException(be, sft, ILLEGAL_DATA_ADDRESS, rsp, msg);
    } else {
      ghost var pdu := PduOf(be, msg);
      BufferOf(be, req, msg, 6, 2 * nb);
      TakeRegisters(table, address, nb, req, offset + 6);
      WordsOfPrefix(pdu[6..] + AfterPdu(be, msg, req[|msg|..]), nb);
      n := ReplyWritten(be, sft, req, rsp, msg);
    }
  }

  /** `_FC_WRITE_AND_READ_REGISTERS`: write first, then read. */
  method ReplyWriteAndRead(be: Backend, sft: Sft, req: array<byte>, table: array<word>, rsp: array<byte>,
                           ghost msg: seq<byte>)
    returns (n: nat)
    requires Holds(req, msg) && SftOf(be, sft, msg)
    requires 10 <= |PduOf(be, msg)| && PduOf(be, msg)[9] == |PduOf(be, msg)| - 10
    requires sft.functionCode == FC_WRITE_AND_READ_REGISTERS
    requires MAX_MESSAGE_LENGTH <= rsp.Length && rsp != req && (rsp as object) != table && (req as object) != table
    modifies rsp, table
    ensures var (t', answer) := ServeWriteAndRead(old(table[..]), PduOf(be, msg));
            table[..] == t' && Ready(be, rsp, n, msg, answer)
  {
    hide IsMessage, Ready, WordsOf, WordBytes, Splice;
    var offset := be.HeaderLength();
    WordFieldOf(be, req, msg, 1);
    WordFieldOf(be, req, msg, 3);
    WordFieldOf(be, req, msg, 5);
    WordFieldOf(be, req, msg, 7);
    FieldsOf(be, req, msg, 9);
    var address := Word(req[offset + 1], req[offset + 2]);
    var nb: nat := Word(req[offset + 3], req[offset + 4]);
    var addressWrite := Word(req[offset + 5], req[offset + 6]);
    var nbWrite: nat := Word(req[offset + 7], req[offset + 8]);
    var nbWriteBytes := req[offset + 9];
    if nbWrite < 1 || MAX_RW_WRITE_REGISTERS < nbWrite || nb < 1 || MAX_READ_REGISTERS < nb ||
       nbWriteBytes != nbWrite * 2
    {
      n := ReplyException(be, sft, ILLEGAL_DATA_VALUE, rsp, msg);
    } else if table.Length < address + nb || table.Length < addressWrite + nbWrite {
      n := ReplyException(be, sft, ILLEGAL_DATA_ADDRESS, rsp, msg);
    } else {
      ghost var pdu := PduOf(be, msg);
      DataOf(be, req, msg, 10, 2 * nbWrite);
      TakeRegisters(table, addressWrite, nbWrite, req, offset + 10);
      WordsOfPrefix(pdu[10..], nbWrite);
      n := BuildRegisters(be, sft, table, address, nb, rsp);
      assert table[..][address..address + nb] == table[address..address + nb];
      ReadyNormal(be, rsp, n, sft, msg, [sft.functionCode, 2 * nb] + WordBytes(table[address..address + nb]));
    }
  }

  /** `_FC_REPORT_SLAVE_ID`. */
  method ReplySlaveId(be: Backend, sft: Sft, rsp: array<byte>, ghost msg: seq<byte>) returns (n: nat)
    requires SftOf(be, sft, msg) && sft.functionCode == FC_REPORT_SLAVE_ID
    requires MAX_MESSAGE_LENGTH <= rsp.Length
    modifies rsp
    ensures Ready(be, rsp, n, msg, Normal([sft.functionCode, |SLAVE_ID_DATA|] + SLAVE_ID_DATA))
  {
    hide Ready;
    n := BuildResponseBasis(be, sft, rsp);
    ghost var m := rsp[..n];
    var byteCountPos := n;
    n := n + 1;
    forall i | 0 <= i < |SLAVE_ID_DATA| {
      rsp[n + i] := SLAVE_ID_DATA[i];
    }
    n := n + |SLAVE_ID_DATA|;
    rsp[byteCountPos] := n - byteCountPos - 1;
    var more := [|SLAVE_ID_DATA|] + SLAVE_ID_DATA;
    assert rsp[..n] == m + more;
    MessageExtends(be, m, rsp[..n], sft.tid, sft.slave, [sft.functionCode], more);
    assert [sft.functionCode] + more == [sft.functionCode, |SLAVE_ID_DATA|] + SLAVE_ID_DATA;
    ReadyNormal(be, rsp, n, sft, msg, [sft.functionCode] + more);
  }

  // ----- modbus_reply

  /** The mapping's tables, the buffers and the stream are separate objects. */
  ghost predicate Separate(req: array<byte>, mapping: Mapping) {
    && mapping.Valid()
    && req != mapping.tabBits && req != mapping.tabInputBits
    && (req as object) != mapping.tabRegisters && (req as object) != mapping.tabInputRegisters
  }

  /** The `switch` of `modbus_reply`; `silent` when it returns without building a response. */
  method BuildReply(be: Backend, sft: Sft, req: array<byte>, reqLength: nat, mapping: Mapping, rsp: array<byte>,
                    ghost msg: seq<byte>)
    returns (n: nat, silent: bool)
    requires Separate(req, mapping) && Separate(rsp, mapping) && rsp != req && MAX_MESSAGE_LENGTH <= rsp.Length
    requires Holds(req, msg) && SftOf(be, sft, msg) && reqLength == |msg| - be.ChecksumLength()
    requires IsBuffered(be, mapping.Contents(), msg, req[|msg|..])
    modifies rsp, mapping.tabBits, mapping.tabRegisters
    ensures var (t', answer) := ServeBuffer(old(mapping.Contents()), PduOf(be, msg), AfterPdu(be, msg, req[|msg|..]));
            && mapping.Contents() == t'
            && silent == answer.Silence?
            && (!silent ==> Ready(be, rsp, n, msg, answer))
  {
    hide ServeReadBits, ServeReadRegisters, ServeWriteBit, ServeWriteRegister;
    hide ServeWriteBits, ServeWriteRegisters, ServeWriteAndRead, Ready;
    FieldsOf(be, req, msg, 0);
    SilentIff(mapping.Contents(), PduOf(be, msg), AfterPdu(be, msg, req[|msg|..]));
    BufferOf(be, req, msg, 0, 0);
    n, silent := 0, false;
    var f := sft.functionCode;
    if f == FC_READ_COILS {
      n := ReplyReadBits(be, sft, req, mapping.tabBits, rsp, msg);
    } else if f == FC_READ_DISCRETE_INPUTS {
      n := ReplyReadBits(be, sft, req, mapping.tabInputBits, rsp, msg);
    } else if f == FC_READ_HOLDING_REGISTERS {
      n := ReplyReadRegisters(be, sft, req, mapping.tabRegisters, rsp, msg);
    } else if f == FC_READ_INPUT_REGISTERS {
      n := ReplyReadRegisters(be, sft, req, mapping.tabInputRegisters, rsp, msg);
    } else if f == FC_WRITE_SINGLE_COIL {
      n := ReplyWriteBit(be, sft, req, reqLength, mapping.tabBits, rsp, msg);
    } else if f == FC_WRITE_SINGLE_REGISTER {
      n := ReplyWriteRegister(be, sft, req, reqLength, mapping.tabRegisters, rsp, msg);
    } else if f == FC_WRITE_MULTIPLE_COILS {
      n := ReplyWriteBits(be, sft, req, mapping.tabBits, rsp, msg);
    } else if f == FC_WRITE_MULTIPLE_REGISTERS {
      n := ReplyWriteRegisters(be, sft, req, mapping.tabRegisters, rsp, msg);
    } else if f == FC_REPORT_SLAVE_ID {
      n := ReplySlaveId(be, sft, rsp, msg);
    } else if f == FC_READ_EXCEPTION_STATUS {
      silent := true;
    } else if f == FC_WRITE_AND_READ_REGISTERS {
      n := ReplyWriteAndRead(be, sft, req, mapping.tabRegisters, rsp, msg);
    } else {
      n := ReplyException(be, sft, ILLEGAL_FUNCTION, rsp, msg);
    }
  }

  /**
   `modbus_reply`: the request `req[..reqLength]` is carried out on the tables and answered on `out`.  What a
   request without its data stores comes from the rest of the buffer.
   */
  method ModbusReply(be: Backend, serverSlave: byte, req: array<byte>, reqLength: nat, mapping: Mapping, out: Stream)
    requires Separate(req, mapping) && reqLength <= MAX_MESSAGE_LENGTH <= req.Length
    requires IsBuffered(be, mapping.Contents(), req[..reqLength], req[reqLength..])
    modifies out, mapping.tabBits, mapping.tabRegisters
    ensures var (t', sent) :=
              ReplyBuffer(be, serverSlave, old(mapping.Contents()), old(req[..reqLength]), old(req[reqLength..]));
            mapping.Contents() == t' && out.pending == old(out.pending) + sent
  {
    hide ServeBuffer, ReplyMessage, Ready, Complete, DataInBuffer;
    ghost var msg, after := req[..reqLength], AfterPdu(be, req[..reqLength], req[reqLength..]);
    var offset := be.HeaderLength();
    var slave := req[offset - 1];
    assert msg[offset - 1] == slave && msg[offset] == req[offset] && msg[0] == req[0];
    assert be.Tcp? ==> msg[1] == req[1];
    if be.Rtu? && slave != serverSlave && slave != 0 {
      return;
    }
    var sft := Sft(slave, req[offset], if be.Rtu? then 0 else Word(req[0], req[1]));
    ServeAnswers(mapping.Contents(), PduOf(be, msg), after);
    var rsp := new byte[MAX_MESSAGE_LENGTH];
    var n, silent := BuildReply(be, sft, req, reqLength - be.ChecksumLength(), mapping, rsp, msg);
    SendReply(be, rsp, n, silent, out, msg, ServeBuffer(old(mapping.Contents()), PduOf(be, msg), after).1);
  }

  /** The `send_msg` at the end of `modbus_reply`. */
  method SendReply(be: Backend, rsp: array<byte>, n: nat, silent: bool, out: Stream,
                   ghost msg: seq<byte>, ghost answer: Answer)
    requires be.HeaderLength() + be.ChecksumLength() < |msg| <= be.MaxAduLength()
    requires Answers(PduOf(be, msg), answer) && silent == answer.Silence?
    requires !silent ==> Ready(be, rsp, n, msg, answer)
    modifies rsp, out
    ensures out.pending == old(out.pending) + ReplyMessage(be, msg, answer)
  {
    hide Crc16, Prepared, Answers;
    if !silent {
      PreparedIsReply(be, rsp[..n], msg, answer);
      SendMsg(be, rsp, n, out);
    }
  }

  /**
   The server's loop body: `modbus_receive` into the program's buffer, then `modbus_reply` if a request came.
   Behind the request the buffer holds what it held before.
   */
  method ServeOne(be: Backend, serverSlave: byte, mapping: Mapping, up: Stream, down: Stream, req: array<byte>)
    requires Separate(req, mapping) && up != down && MAX_MESSAGE_LENGTH <= req.Length
    requires var r := Receive(be, Indication, up.pending);
             r.result.Ok? ==>
               IsBuffered(be, mapping.Contents(), r.result.value, Untouched(be, Indication, up.pending, req[..]))
    modifies up, down, req, mapping.tabBits, mapping.tabRegisters
    ensures var r := Receive(be, Indication, old(up.pending));
            && up.pending == old(up.pending)[r.taken..]
            && (r.result.Err? ==> mapping.Contents() == old(mapping.Contents()) && down.pending == old(down.pending))
            && (r.result.Ok? ==>
                  var (t', sent) :=
                    ReplyBuffer(be, serverSlave, old(mapping.Contents()), r.result.value,
                                Untouched(be, Indication, old(up.pending), old(req[..])));
                  mapping.Contents() == t' && down.pending == old(down.pending) + sent)
  {
    hide ReplyBuffer, IsBuffered;
    TakenFitsAdu(be, Indication, up.pending);
    ghost var s := up.pending;
    var rc := ReceiveMsg(be, up, req, Indication);
    if rc.Ok? {
      ReceivedIsComplete(be, Indication, s);
      assert req[..rc.value] == Receive(be, Indication, s).result.value;
      ModbusReply(be, serverSlave, req, rc.value, mapping, down);
    }
  }
}
