/**
 The client functions of the library as it runs them: requests are built in a buffer, sent, and answered
 into another buffer, which is checked and decoded into the caller's array.  Their contract is `Runs.Call`.
 */
module Client {
  import opened Bytes
  import opened BitPacking
  import opened Crc
  import opened Protocol
  import opened Receiver
  import opened ServerModel
  import opened ClientModel
  import opened EndToEnd
  import opened Runs
  import opened Server

  /** The two directions of a connection, and the server at its end. */
  class Link {
    const be: Backend
    const serverSlave: byte
    const mapping: Mapping
    const up: Stream
    const down: Stream
    var online: bool

    constructor (be: Backend, serverSlave: byte, mapping: Mapping)
      requires mapping.Valid()
      ensures this.be == be && this.serverSlave == serverSlave && this.mapping == mapping && online
      ensures Valid() && fresh(up) && fresh(down)
      ensures up.pending == [] && down.pending == []
    {
      this.be, this.serverSlave, this.mapping, online := be, serverSlave, mapping, true;
      up := new Stream([]);
      down := new Stream([]);
    }

    ghost predicate Valid() {
      up != down && mapping.Valid()
    }

    /** What happens at the other end while the client waits: the server serves one request, if it is there. */
    method Turn()
      requires Valid() && (online ==> Servable(be, mapping.Contents(), up.pending))
      modifies up, down, mapping.tabBits, mapping.tabRegisters
      ensures !online ==> mapping.Contents() == old(mapping.Contents()) && up.pending == old(up.pending)
                          && down.pending == old(down.pending)
      ensures online ==>
                var (t', up', sent) := ServerTurn(be, serverSlave, old(mapping.Contents()), old(up.pending));
                mapping.Contents() == t' && up.pending == up' && down.pending == old(down.pending) + sent
    {
      hide Receive, Reply, ReplyBuffer, IsBuffered, IsRequest;
      if online {
        var req := new byte[MAX_MESSAGE_LENGTH];
        ghost var t, r := mapping.Contents(), Receive(be, Indication, up.pending);
        if r.result.Ok? {
          ReplyIgnoresRest(be, serverSlave, t, r.result.value, Untouched(be, Indication, up.pending, req[..]));
        }
        ServeOne(be, serverSlave, mapping, up, down, req);
      }
    }
  }

  lemma RequestMessageFits(be: Backend, m: seq<byte>, tid: word, slave: byte, r: Request)
    requires !TooMany(r) && IsMessage(be, m, tid, slave, RequestPdu(r))
    ensures |m| == be.HeaderLength() + |RequestPdu(r)|
    ensures |m| + be.ChecksumLength() <= be.MaxAduLength() <= MAX_MESSAGE_LENGTH
    ensures Finish(be, m) == RequestFrame(be, tid, slave, r)
    ensures |RequestFrame(be, tid, slave, r)| == |m| + be.ChecksumLength()
    ensures PduOf(be, RequestFrame(be, tid, slave, r)) == RequestPdu(r)
  {
    hide Crc16, RequestPdu, Complete;
    RequestIsComplete(r);
    FinishIsFrame(be, m, tid, slave, RequestPdu(r));
    FrameParts(be, tid, slave, RequestPdu(r));
  }

  /** The result of a call, from the result of `check_confirmation`. */
  lemma ResultFromCheck(be: Backend, r: Request, req: seq<byte>, down: seq<byte>, rsp: seq<byte>)
    requires !TooMany(r) && Receive(be, Confirmation, down).result == Ok(rsp)
    requires be.HeaderLength() + 5 + be.ChecksumLength() <= |req| && PduOf(be, req) == RequestPdu(r)
    requires be.HeaderLength() + 2 + be.ChecksumLength() <= |rsp|
    requires Complete(Confirmation, PduOf(be, rsp))
    ensures CheckConfirmation(be, req, rsp).Err? ==>
              ClientResult(be, r, req, down) == Err(CheckConfirmation(be, req, rsp).error)
    ensures CheckConfirmation(be, req, rsp).Ok? ==>
              && CheckPdu(RequestPdu(r), PduOf(be, rsp)) == CheckConfirmation(be, req, rsp)
              && ClientResult(be, r, req, down) == Interpret(r, PduOf(be, rsp))
  {
    hide Receive, CheckPdu, RequestPdu, Complete;
  }

  /** `modbus_t`, with the transaction counter that `_modbus_tcp_build_request_basis` keeps. */
  class Client {
    const link: Link
    var slave: byte
    var tid: word

    constructor (link: Link, slave: byte)
      ensures this.link == link && this.slave == slave && tid == 0
    {
      this.link, this.slave, tid := link, slave, 0;
    }

    ghost predicate Valid() {
      link.Valid()
    }

    ghost function State(): World
      reads this, link, link.up, link.down
      reads link.mapping.tabBits, link.mapping.tabInputBits, link.mapping.tabRegisters, link.mapping.tabInputRegisters
    {
      World(link.be, tid, slave, link.serverSlave, link.online, link.mapping.Contents(),
            link.up.pending, link.down.pending)
    }

    /** A buffer of the caller or of a client function is none of the server's tables. */
    ghost predicate Apart(buf: object) {
      && buf != link.mapping.tabBits && buf != link.mapping.tabInputBits
      && buf != link.mapping.tabRegisters && buf != link.mapping.tabInputRegisters
    }

    /** `_modbus_rtu_build_request_basis`. */
    method RtuBuildRequestBasis(f: byte, addr: word, nb: word, req: array<byte>) returns (n: nat)
      requires 12 <= req.Length
      modifies req
      ensures n == 6 && req[..n] == [slave] + BasicPdu(f, addr, nb)
    {
      req[0] := slave;
      req[1] := f;
      req[2], req[3] := Hi(addr), Lo(addr);
      req[4], req[5] := Hi(nb), Lo(nb);
      n := 6;
    }

    /** `_modbus_tcp_build_request_basis`; the length field is filled in later. */
    method TcpBuildRequestBasis(f: byte, addr: word, nb: word, req: array<byte>) returns (n: nat)
      requires 12 <= req.Length
      modifies this`tid, req
      ensures tid == NextTid(old(tid))
      ensures n == 12 && req[..4] == [Hi(tid), Lo(tid), 0, 0]
      ensures req[6..n] == [slave] + BasicPdu(f, addr, nb)
    {
      if tid < 0xFFFF {
        tid := tid + 1;
      } else {
        tid := 0;
      }
      req[0], req[1] := Hi(tid), Lo(tid);
      req[2], req[3] := 0, 0;
      req[6] := slave;
      req[7] := f;
      req[8], req[9] := Hi(addr), Lo(addr);
      req[10], req[11] := Hi(nb), Lo(nb);
      n := 12;
    }

    method BuildRequestBasis(f: byte, addr: word, nb: word, req: array<byte>) returns (n: nat)
      requires 12 <= req.Length && Apart(req)
      modifies this`tid, req
      ensures State() == Numbered(old(State()))
      ensures n == link.be.HeaderLength() + 5
      ensures IsMessage(link.be, req[..n], tid, slave, BasicPdu(f, addr, nb))
    {
      hide BasicPdu;
      match link.be
      case Rtu =>
        n := RtuBuildRequestBasis(f, addr, nb, req);
      case Tcp =>
        n := TcpBuildRequestBasis(f, addr, nb, req);
        assert req[7..n] == req[6..n][1..] && req[6] == req[6..n][0];
        assert req[0] == req[..4][0] && req[1] == req[..4][1] && req[2] == req[..4][2] && req[3] == req[..4][3];
    }

    /** `send_msg` of a finished request, and the server's turn. */
    method SendRequest(req: array<byte>, n: nat, ghost r: Request)
      requires Valid() && Apart(req) && !TooMany(r) && Sendable(State(), r)
      requires n + link.be.ChecksumLength() <= req.Length
      requires IsMessage(link.be, req[..n], tid, slave, RequestPdu(r))
      modifies req, link.up, link.down, link.mapping.tabBits, link.mapping.tabRegisters
      ensures State() == Sent(old(State()), r)
      ensures var frame := RequestFrame(link.be, tid, slave, r);
              |frame| == n + link.be.ChecksumLength() && req[..|frame|] == frame
    {
      hide Crc16, RequestPdu, Servable, ServerTurn, IsMessage;
      RequestMessageFits(link.be, req[..n], tid, slave, r);
      var m := SendMsgPre(link.be, req, n);
      link.up.pending := link.up.pending + req[..m];
      link.Turn();
    }

    /** `compute_response_length_from_request`: -1 stands for MSG_LENGTH_UNDEFINED. */
    method ComputeResponseLength(req: array<byte>, ghost m: seq<byte>) returns (length: int)
      requires Holds(req, m) && link.be.HeaderLength() + 5 + link.be.ChecksumLength() <= |m|
      ensures var expected := ExpectedLength(PduOf(link.be, m));
              length == if expected == -1 then -1
                        else link.be.HeaderLength() + expected + link.be.ChecksumLength()
    {
      hide ByteCount;
      var offset := link.be.HeaderLength();
      FieldsOf(link.be, req, m, 0);
      WordFieldOf(link.be, req, m, 3);
      var f := req[offset];
      if f == FC_READ_COILS || f == FC_READ_DISCRETE_INPUTS {
        length := 2 + ByteCount(Word(req[offset + 3], req[offset + 4]));
      } else if f == FC_WRITE_AND_READ_REGISTERS || f == FC_READ_HOLDING_REGISTERS || f == FC_READ_INPUT_REGISTERS {
        length := 2 + 2 * Word(req[offset + 3], req[offset + 4]);
      } else if f == FC_READ_EXCEPTION_STATUS {
        length := 3;
      } else if f == FC_REPORT_SLAVE_ID {
        return -1;
      } else {
        length := 5;
      }
      length := offset + length + link.be.ChecksumLength();
    }

    /** The part of `check_confirmation` for a response of the computed length. */
    method CheckValues(req: array<byte>, rsp: array<byte>, ghost m: seq<byte>, ghost a: seq<byte>)
      returns (rc: Result<nat>)
      requires Holds(req, m) && link.be.HeaderLength() + 5 + link.be.ChecksumLength() <= |m|
      requires Holds(rsp, a) && link.be.HeaderLength() + 2 + link.be.ChecksumLength() <= |a|
      requires var p, q := PduOf(link.be, m), PduOf(link.be, a);
               |q| == ExpectedLength(p) || ExpectedLength(p) == -1
      ensures rc == CheckPdu(PduOf(link.be, m), PduOf(link.be, a))
    {
      hide ByteCount;
      var offset := link.be.HeaderLength();
      FieldsOf(link.be, req, m, 0);
      WordFieldOf(link.be, req, m, 3);
      FieldsOf(link.be, rsp, a, 0);
      FieldsOf(link.be, rsp, a, 1);
      var f := rsp[offset];
      if f != req[offset] {
        return Err(BadData);
      }
      var reqNbValue: nat, rspNbValue: nat := 1, 1;
      if f == FC_READ_COILS || f == FC_READ_DISCRETE_INPUTS {
        reqNbValue := ByteCount(Word(req[offset + 3], req[offset + 4]));
        rspNbValue := rsp[offset + 1];
      } else if f == FC_WRITE_AND_READ_REGISTERS || f == FC_READ_HOLDING_REGISTERS || f == FC_READ_INPUT_REGISTERS {
        reqNbValue := Word(req[offset + 3], req[offset + 4]);
        rspNbValue := rsp[offset + 1] / 2;
      } else if f == FC_WRITE_MULTIPLE_COILS || f == FC_WRITE_MULTIPLE_REGISTERS {
        assert ExpectedLength(PduOf(link.be, m)) == 5;
        WordFieldOf(link.be, rsp, a, 3);
        reqNbValue := Word(req[offset + 3], req[offset + 4]);
        rspNbValue := Word(rsp[offset + 3], rsp[offset + 4]);
      } else if f == FC_REPORT_SLAVE_ID {
        reqNbValue := rsp[offset + 1];
        rspNbValue := reqNbValue;
      }
      rc := if reqNbValue == rspNbValue then Ok(rspNbValue) else Err(BadData);
    }

    /** `check_confirmation`, with the `pre_check_confirmation` of TCP. */
    method CheckReceived(req: array<byte>, rsp: array<byte>, rspLength: nat, ghost m: seq<byte>)
      returns (rc: Result<nat>)
      requires Holds(req, m) && link.be.HeaderLength() + 5 + link.be.ChecksumLength() <= |m|
      requires rspLength <= MAX_MESSAGE_LENGTH <= rsp.Length
      requires link.be.HeaderLength() + 2 + link.be.ChecksumLength() <= rspLength
      ensures rc == CheckConfirmation(link.be, m, rsp[..rspLength])
    {
      hide ExpectedLength;
      var offset := link.be.HeaderLength();
      ghost var a := rsp[..rspLength];
      assert m[0] == req[0] && m[1] == req[1];
      if link.be.Tcp? && (req[0] != rsp[0] || req[1] != rsp[1]) {
        return Err(BadData);
      }
      var computed := ComputeResponseLength(req, m);
      FieldsOf(link.be, req, m, 0);
      FieldsOf(link.be, rsp, a, 0);
      FieldsOf(link.be, rsp, a, 1);
      if rspLength == computed || computed == -1 {
        rc := CheckValues(req, rsp, m, a);
      } else if rspLength == offset + 2 + link.be.ChecksumLength() && req[offset] == rsp[offset] as int - 0x80 {
        var exceptionCode := rsp[offset + 1];
        rc := Err(if exceptionCode < EXCEPTION_MAX then ModbusException(exceptionCode) else BadExceptionCode);
      } else {
        rc := Err(BadData);
      }
    }

    /**
     What every client function does once its request is built: send it, receive a message, check it.  On
     success the response is left in `rsp[..|a|]`, `a` being the message received.
     */
    method Transact(req: array<byte>, n: nat, rsp: array<byte>, ghost r: Request)
      returns (rc: Result<nat>, ghost a: seq<byte>)
      requires Valid() && Apart(req) && Apart(rsp) && req != rsp && !TooMany(r) && Sendable(State(), r)
      requires n + link.be.ChecksumLength() <= req.Length && MAX_MESSAGE_LENGTH <= rsp.Length
      requires IsMessage(link.be, req[..n], tid, slave, RequestPdu(r))
      modifies req, rsp, link.up, link.down, link.mapping.tabBits, link.mapping.tabRegisters
      ensures State() == Received(Sent(old(State()), r))
      ensures var s := Sent(old(State()), r);
              var result := ClientResult(link.be, r, RequestFrame(link.be, tid, slave, r), s.down);
              match rc
              case Err(e) => result == Err(e)
              case Ok(count) =>
                && link.be.HeaderLength() + link.be.ChecksumLength() < |a| && Holds(rsp, a)
                && Complete(Confirmation, PduOf(link.be, a))
                && CheckPdu(RequestPdu(r), PduOf(link.be, a)) == Ok(count)
                && result == Interpret(r, PduOf(link.be, a))
    {
      hide Crc16, RequestPdu, Sendable, Sent, ClientResult, CheckConfirmation, Interpret, CheckPdu, Complete;
      RequestMessageFits(link.be, req[..n], tid, slave, r);
      ghost var frame := RequestFrame(link.be, tid, slave, r);
      SendRequest(req, n, r);
      a := [];
      ghost var down := link.down.pending;
      var length := ReceiveMsg(link.be, link.down, rsp, Confirmation);
      if length.Err? {
        ResultFromError(link.be, r, frame, down);
        return Err(length.error), a;
      }
      a := rsp[..length.value];
      ReceivedIsComplete(link.be, Confirmation, down);
      CompleteHasTwo(PduOf(link.be, a));
      rc := CheckReceived(req, rsp, length.value, frame);
      ResultFromCheck(link.be, r, frame, down, a);
    }

    // ----- reads

    /** The end of `read_io_status`: decode an accepted response. */
    method DeliverBits(rsp: array<byte>, ghost a: seq<byte>, count: nat, nb: nat, dest: array<byte>, ghost r: Request)
      requires (r.ReadBits? || r.ReadInputBits?) && r.nb == nb && !TooMany(r)
      requires dest != rsp && nb <= dest.Length
      requires link.be.HeaderLength() + link.be.ChecksumLength() < |a| && Holds(rsp, a)
      requires Complete(Confirmation, PduOf(link.be, a))
      requires CheckPdu(RequestPdu(r), PduOf(link.be, a)) == Ok(count)
      modifies dest
      ensures Interpret(r, PduOf(link.be, a)) == Ok(BitValues(dest[..nb]))
      ensures dest[nb..] == old(dest[nb..])
    {
      hide Unpack, Complete, CheckPdu, RequestPdu, ByteCount;
      ghost var pdu := PduOf(link.be, a);
      AcceptedRead(r, pdu);
      DataOf(link.be, rsp, a, 2, count);
      UnpackInto(rsp, link.be.HeaderLength() + 2, count, nb, dest);
      assert pdu[2..][..count] == pdu[2..];
    }

    /** `read_io_status`: `r` is the read of bits that `functionCode`, `addr` and `nb` ask for. */
    method ReadIoStatus(functionCode: byte, addr: word, nb: nat, dest: array<byte>, ghost r: Request)
      returns (rc: Result<nat>)
      requires Valid() && Apart(dest) && nb <= dest.Length && nb <= MAX_READ_BITS
      requires (r == ReadBits(addr, nb) && functionCode == FC_READ_COILS) ||
               (r == ReadInputBits(addr, nb) && functionCode == FC_READ_DISCRETE_INPUTS)
      requires Callable(State(), r)
      modifies this`tid, link.up, link.down, link.mapping.tabBits, link.mapping.tabRegisters, dest
      ensures State() == Call(old(State()), r).0
      ensures match Call(old(State()), r).1
              case Ok(out) => rc.Ok? && BitValues(dest[..nb]) == out && dest[nb..] == old(dest[nb..])
              case Err(e) => rc == Err(e) && dest[..] == old(dest[..])
    {
      hide Crc16, Callable, Sendable, Sent, Received, ClientResult, Complete, CheckPdu, Interpret;
      var req := new byte[12];
      var rsp := new byte[MAX_MESSAGE_LENGTH];
      SendableAfter(State(), r);
      var n := BuildRequestBasis(functionCode, addr, nb, req);
      ghost var a;
      rc, a := Transact(req, n, rsp, r);
      if rc.Ok? {
        DeliverBits(rsp, a, rc.value, nb, dest, r);
      }
    }

    /** `modbus_read_bits` and, with `inputs`, `modbus_read_input_bits`. */
    method ModbusReadBits(inputs: bool, addr: word, nb: nat, dest: array<byte>, ghost r: Request)
      returns (rc: Result<nat>)
      requires Valid() && Apart(dest) && nb <= dest.Length
      requires r == if inputs then ReadInputBits(addr, nb) else ReadBits(addr, nb)
      requires Callable(State(), r)
      modifies this`tid, link.up, link.down, link.mapping.tabBits, link.mapping.tabRegisters, dest
      ensures State() == Call(old(State()), r).0
      ensures match Call(old(State()), r).1
              case Ok(out) => rc == Ok(nb) && BitValues(dest[..nb]) == out && dest[nb..] == old(dest[nb..])
              case Err(e) => rc == Err(e) && dest[..] == old(dest[..])
    {
      hide Callable;
      if MAX_READ_BITS < nb {
        return Err(TooManyData);
      }
      rc := ReadIoStatus(if inputs then FC_READ_DISCRETE_INPUTS else FC_READ_COILS, addr, nb, dest, r);
      if rc.Ok? {
        rc := Ok(nb);
      }
    }

    /** The decoding loop of `read_registers` and `modbus_write_and_read_registers`. */
    method DecodeRegisters(rsp: array<byte>, offset: nat, count: nat, dest: array<word>)
      requires offset + 2 + 2 * count <= rsp.Length && count <= dest.Length && (dest as object) != rsp
      modifies dest
      ensures dest[..] == WordsOf(rsp[offset + 2..offset + 2 + 2 * count], count) + old(dest[count..])
    {
      for i := 0 to count
        invariant forall k :: 0 <= k < dest.Length ==>
                    dest[k] == if k < i then Word(rsp[offset + 2 + 2 * k], rsp[offset + 3 + 2 * k]) else old(dest[k])
      {
        dest[i] := Word(rsp[offset + 2 + 2 * i], rsp[offset + 3 + 2 * i]);
      }
    }

    /** The end of a call that reads registers: decode an accepted response. */
    method DeliverRegisters(rsp: array<byte>, ghost a: seq<byte>, count: nat, dest: array<word>, ghost r: Request)
      requires (ReadsRegisters(r) || r.WriteAndReadRegisters?) && !TooMany(r)
      requires (dest as object) != rsp && QuantityOf(r) <= dest.Length
      requires link.be.HeaderLength() + link.be.ChecksumLength() < |a| && Holds(rsp, a)
      requires Complete(Confirmation, PduOf(link.be, a))
      requires CheckPdu(RequestPdu(r), PduOf(link.be, a)) == Ok(count)
      modifies dest
      ensures count == QuantityOf(r)
      ensures Interpret(r, PduOf(link.be, a)) == Ok(WordValues(dest[..count]))
      ensures dest[count..] == old(dest[count..])
    {
      hide WordsOf, Complete, CheckPdu, RequestPdu;
      ghost var pdu := PduOf(link.be, a);
      AcceptedRead(r, pdu);
      DataOf(link.be, rsp, a, 2, 2 * count);
      DecodeRegisters(rsp, link.be.HeaderLength(), count, dest);
      assert pdu[2..][..2 * count] == pdu[2..];
    }

    /** `read_registers`, and `modbus_read_registers` or, with `inputs`, `modbus_read_input_registers`. */
    method ModbusReadRegisters(inputs: bool, addr: word, nb: nat, dest: array<word>, ghost r: Request)
      returns (rc: Result<nat>)
      requires Valid() && Apart(dest) && nb <= dest.Length
      requires r == if inputs then ReadInputRegisters(addr, nb) else ReadRegisters(addr, nb)
      requires Callable(State(), r)
      modifies this`tid, link.up, link.down, link.mapping.tabBits, link.mapping.tabRegisters, dest
      ensures State() == Call(old(State()), r).0
      ensures match Call(old(State()), r).1
              case Ok(out) => rc == Ok(nb) && WordValues(dest[..nb]) == out && dest[nb..] == old(dest[nb..])
              case Err(e) => rc == Err(e) && dest[..] == old(dest[..])
    {
      hide Crc16, Callable, Sendable, Sent, Received, ClientResult, Complete, CheckPdu, Interpret;
      if MAX_READ_REGISTERS < nb {
        return Err(TooManyData);
      }
      var req := new byte[12];
      var rsp := new byte[MAX_MESSAGE_LENGTH];
      SendableAfter(State(), r);
      var n := BuildRequestBasis(if inputs then FC_READ_INPUT_REGISTERS else FC_READ_HOLDING_REGISTERS, addr, nb, req);
      ghost var a;
      rc, a := Transact(req, n, rsp, r);
      if rc.Ok? {
        DeliverRegisters(rsp, a, rc.value, dest, r);
      }
    }

    // ----- writes

    /** The result of a write, from an accepted response. */
    lemma AcceptedWrite(r: Request, a: seq<byte>, count: nat)
      requires Writes(r) && !TooMany(r)
      requires link.be.HeaderLength() + link.be.ChecksumLength() < |a|
      requires Complete(Confirmation, PduOf(link.be, a))
      requires CheckPdu(RequestPdu(r), PduOf(link.be, a)) == Ok(count)
      ensures Interpret(r, PduOf(link.be, a)) == Ok(Written(count)) && count == WriteCount(r)
    {
      hide Complete, CheckPdu, RequestPdu;
      AcceptedRead(r, PduOf(link.be, a));
    }

    /** `write_single`: `modbus_write_bit` passes 0xFF00 or 0, `modbus_write_register` the value. */
    method WriteSingle(functionCode: byte, addr: word, value: word, ghost r: Request) returns (rc: Result<nat>)
      requires Valid() && !TooMany(r)
      requires (r == WriteRegister(addr, value) && functionCode == FC_WRITE_SINGLE_REGISTER) ||
               (r.WriteBit? && r.addr == addr && value == (if r.status then 0xFF00 else 0)
                && functionCode == FC_WRITE_SINGLE_COIL)
      requires Callable(State(), r)
      modifies this`tid, link.up, link.down, link.mapping.tabBits, link.mapping.tabRegisters
      ensures State() == Call(old(State()), r).0
      ensures match Call(old(State()), r).1
              case Ok(out) => rc == Ok(1) && out == Written(1)
              case Err(e) => rc == Err(e)
    {
      hide Crc16, Callable, Sendable, Sent, Received, ClientResult, Complete, CheckPdu, Interpret;
      var req := new byte[12];
      var rsp := new byte[MAX_MESSAGE_LENGTH];
      SendableAfter(State(), r);
      var n := BuildRequestBasis(functionCode, addr, value, req);
      ghost var a;
      rc, a := Transact(req, n, rsp, r);
      if rc.Ok? {
        AcceptedWrite(r, a, rc.value);
      }
    }

    method ModbusWriteBit(addr: word, status: bool) returns (rc: Result<nat>)
      requires Valid() && Callable(State(), WriteBit(addr, status))
      modifies this`tid, link.up, link.down, link.mapping.tabBits, link.mapping.tabRegisters
      ensures State() == Call(old(State()), WriteBit(addr, status)).0
      ensures match Call(old(State()), WriteBit(addr, status)).1
              case Ok(out) => rc == Ok(1) && out == Written(1)
              case Err(e) => rc == Err(e)
    {
      hide Callable, Call;
      rc := WriteSingle(FC_WRITE_SINGLE_COIL, addr, if status then 0xFF00 else 0, WriteBit(addr, status));
    }

    method ModbusWriteRegister(addr: word, value: word) returns (rc: Result<nat>)
      requires Valid() && Callable(State(), WriteRegister(addr, value))
      modifies this`tid, link.up, link.down, link.mapping.tabBits, link.mapping.tabRegisters
      ensures State() == Call(old(State()), WriteRegister(addr, value)).0
      ensures match Call(old(State()), WriteRegister(addr, value)).1
              case Ok(out) => rc == Ok(1) && out == Written(1)
              case Err(e) => rc == Err(e)
    {
      hide Callable, Call;
      rc := WriteSingle(FC_WRITE_SINGLE_REGISTER, addr, value, WriteRegister(addr, value));
    }

    /** The request of `modbus_write_bits`. */
    method BuildWriteBits(addr: word, src: seq<byte>, req: array<byte>) returns (n: nat)
      requires Apart(req) && MAX_MESSAGE_LENGTH <= req.Length && |src| <= MAX_WRITE_BITS
      modifies this`tid, req
      ensures State() == Numbered(old(State()))
      ensures n + link.be.ChecksumLength() <= MAX_MESSAGE_LENGTH
      ensures IsMessage(link.be, req[..n], tid, slave, RequestPdu(WriteBits(addr, src)))
    {
      hide Pack, ByteCount, BasicPdu, IsMessage;
      ByteCountFits();
      var start := BuildRequestBasis(FC_WRITE_MULTIPLE_COILS, addr, |src|, req);
      ghost var m, basis := req[..start], BasicPdu(FC_WRITE_MULTIPLE_COILS, addr, |src|);
      var byteCount := ByteCount(|src|);
      req[start] := byteCount;
      assert req[..start + 1] == m + [byteCount];
      MessageExtends(link.be, m, req[..start + 1], tid, slave, basis, [byteCount]);
      n := AppendBits(src, req, start + 1, basis + [byteCount]);
    }

    /** Packed bits appended to a request. */
    method AppendBits(src: seq<byte>, req: array<byte>, start: nat, ghost pdu: seq<byte>) returns (n: nat)
      requires start + ByteCount(|src|) <= req.Length
      requires IsMessage(link.be, req[..start], tid, slave, pdu)
      modifies req
      ensures n == start + ByteCount(|src|)
      ensures IsMessage(link.be, req[..n], tid, slave, pdu + Pack(src))
    {
      hide Pack, IsMessage, ByteCount;
      ghost var m := req[..start];
      n := PackInto(src, req, start);
      assert req[..n] == req[..start] + req[start..n];
      MessageExtends(link.be, m, req[..n], tid, slave, pdu, Pack(src));
    }

    /** `modbus_write_bits`. */
    method ModbusWriteBits(addr: word, src: seq<byte>) returns (rc: Result<nat>)
      requires Valid() && Callable(State(), WriteBits(addr, src))
      modifies this`tid, link.up, link.down, link.mapping.tabBits, link.mapping.tabRegisters
      ensures State() == Call(old(State()), WriteBits(addr, src)).0
      ensures match Call(old(State()), WriteBits(addr, src)).1
              case Ok(out) => rc == Ok(|src|) && out == Written(|src|)
              case Err(e) => rc == Err(e)
    {
      hide Crc16, Callable, Sendable, Sent, Received, ClientResult;
      hide Complete, CheckPdu, Interpret, RequestPdu, IsMessage;
      if MAX_WRITE_BITS < |src| {
        return Err(TooManyData);
      }
      ghost var r := WriteBits(addr, src);
      var req := new byte[MAX_MESSAGE_LENGTH];
      var rsp := new byte[MAX_MESSAGE_LENGTH];
      SendableAfter(State(), r);
      var n := BuildWriteBits(addr, src, req);
      ghost var a;
      rc, a := Transact(req, n, rsp, r);
      if rc.Ok? {
        AcceptedWrite(r, a, rc.value);
      }
    }

    /** The loop that stores registers into a request, high byte first. */
    method PutWords(src: seq<word>, req: array<byte>, offset: nat) returns (end: nat)
      requires offset + 2 * |src| <= req.Length
      modifies req
      ensures end == offset + 2 * |src|
      ensures req[offset..end] == WordBytes(src)
      ensures req[..offset] == old(req[..offset]) && req[end..] == old(req[end..])
    {
      end := offset;
      for i := 0 to |src|
        invariant end == offset + 2 * i
        invariant forall k :: 0 <= k < i ==> req[offset + 2 * k] == Hi(src[k]) && req[offset + 2 * k + 1] == Lo(src[k])
        invariant forall k :: 0 <= k < req.Length && !(offset <= k < end) ==> req[k] == old(req[k])
      {
        req[end] := Hi(src[i]);
        end := end + 1;
        req[end] := Lo(src[i]);
        end := end + 1;
      }
      WordBytesAre(req[offset..end], src);
    }

    /** Registers appended to a request. */
    method AppendWords(src: seq<word>, req: array<byte>, start: nat, ghost pdu: seq<byte>) returns (n: nat)
      requires start + 2 * |src| <= req.Length
      requires IsMessage(link.be, req[..start], tid, slave, pdu)
      modifies req
      ensures n == start + 2 * |src|
      ensures IsMessage(link.be, req[..n], tid, slave, pdu + WordBytes(src))
    {
      hide WordBytes, IsMessage;
      ghost var m := req[..start];
      n := PutWords(src, req, start);
      assert req[..n] == req[..start] + req[start..n];
      MessageExtends(link.be, m, req[..n], tid, slave, pdu, WordBytes(src));
    }

    /** The request of `modbus_write_registers`. */
    method BuildWriteRegisters(addr: word, src: seq<word>, req: array<byte>) returns (n: nat)
      requires Apart(req) && MAX_MESSAGE_LENGTH <= req.Length && |src| <= MAX_WRITE_REGISTERS
      modifies this`tid, req
      ensures State() == Numbered(old(State()))
      ensures n + link.be.ChecksumLength() <= MAX_MESSAGE_LENGTH
      ensures IsMessage(link.be, req[..n], tid, slave, RequestPdu(WriteRegisters(addr, src)))
    {
      hide WordBytes, BasicPdu, IsMessage;
      var start := BuildRequestBasis(FC_WRITE_MULTIPLE_REGISTERS, addr, |src|, req);
      ghost var m, basis := req[..start], BasicPdu(FC_WRITE_MULTIPLE_REGISTERS, addr, |src|);
      var byteCount := |src| * 2;
      req[start] := byteCount;
      assert req[..start + 1] == m + [byteCount];
      MessageExtends(link.be, m, req[..start + 1], tid, slave, basis, [byteCount]);
      n := AppendWords(src, req, start + 1, basis + [byteCount]);
    }

    /** `modbus_write_registers`. */
    method ModbusWriteRegisters(addr: word, src: seq<word>) returns (rc: Result<nat>)
      requires Valid() && Callable(State(), WriteRegisters(addr, src))
      modifies this`tid, link.up, link.down, link.mapping.tabBits, link.mapping.tabRegisters
      ensures State() == Call(old(State()), WriteRegisters(addr, src)).0
      ensures match Call(old(State()), WriteRegisters(addr, src)).1
              case Ok(out) => rc == Ok(|src|) && out == Written(|src|)
              case Err(e) => rc == Err(e)
    {
      hide Crc16, Callable, Sendable, Sent, Received, ClientResult;
      hide Complete, CheckPdu, Interpret, RequestPdu, IsMessage;
      if MAX_WRITE_REGISTERS < |src| {
        return Err(TooManyData);
      }
      ghost var r := WriteRegisters(addr, src);
      var req := new byte[MAX_MESSAGE_LENGTH];
      var rsp := new byte[MAX_MESSAGE_LENGTH];
      SendableAfter(State(), r);
      var n := BuildWriteRegisters(addr, src, req);
      ghost var a;
      rc, a := Transact(req, n, rsp, r);
      if rc.Ok? {
        AcceptedWrite(r, a, rc.value);
      }
    }

    /** The request of `modbus_write_and_read_registers`. */
    method BuildWriteAndRead(writeAddr: word, src: seq<word>, readAddr: word, readNb: nat, req: array<byte>)
      returns (n: nat)
      requires Apart(req) && MAX_MESSAGE_LENGTH <= req.Length
      requires |src| <= MAX_RW_WRITE_REGISTERS && readNb <= MAX_READ_REGISTERS
      modifies this`tid, req
      ensures State() == Numbered(old(State()))
      ensures n + link.be.ChecksumLength() <= MAX_MESSAGE_LENGTH
      ensures IsMessage(link.be, req[..n], tid, slave,
                        RequestPdu(WriteAndReadRegisters(writeAddr, src, readAddr, readNb)))
    {
      hide WordBytes, BasicPdu, IsMessage;
      var start := BuildRequestBasis(FC_WRITE_AND_READ_REGISTERS, readAddr, readNb, req);
      ghost var basis := BasicPdu(FC_WRITE_AND_READ_REGISTERS, readAddr, readNb);
      n := AppendWriteFields(writeAddr, |src|, req, start, basis);
      n := AppendWords(src, req, n, basis + WriteFields(writeAddr, |src|));
    }

    /** What a write-and-read request says of its write: address, quantity and byte count. */
    ghost function WriteFields(writeAddr: word, nb: nat): seq<byte>
      requires nb <= MAX_RW_WRITE_REGISTERS
    {
      [Hi(writeAddr), Lo(writeAddr), Hi(nb), Lo(nb), 2 * nb]
    }

    method AppendWriteFields(writeAddr: word, nb: nat, req: array<byte>, start: nat, ghost pdu: seq<byte>)
      returns (n: nat)
      requires nb <= MAX_RW_WRITE_REGISTERS && start + 5 <= req.Length
      requires IsMessage(link.be, req[..start], tid, slave, pdu)
      modifies req
      ensures n == start + 5
      ensures IsMessage(link.be, req[..n], tid, slave, pdu + WriteFields(writeAddr, nb))
    {
      hide IsMessage;
      ghost var m := req[..start];
      var byteCount := nb * 2;
      req[start], req[start + 1] := Hi(writeAddr), Lo(writeAddr);
      req[start + 2], req[start + 3] := Hi(nb), Lo(nb);
      req[start + 4] := byteCount;
      n := start + 5;
      assert req[..n] == m + WriteFields(writeAddr, nb);
      MessageExtends(link.be, m, req[..n], tid, slave, pdu, WriteFields(writeAddr, nb));
    }

    /** `modbus_write_and_read_registers`. */
    method ModbusWriteAndReadRegisters(writeAddr: word, src: seq<word>, readAddr: word, readNb: nat, dest: array<word>)
      returns (rc: Result<nat>)
      requires Valid() && Apart(dest) && readNb <= dest.Length
      requires Callable(State(), WriteAndReadRegisters(writeAddr, src, readAddr, readNb))
      modifies this`tid, link.up, link.down, link.mapping.tabBits, link.mapping.tabRegisters, dest
      ensures State() == Call(old(State()), WriteAndReadRegisters(writeAddr, src, readAddr, readNb)).0
      ensures match Call(old(State()), WriteAndReadRegisters(writeAddr, src, readAddr, readNb)).1
              case Ok(out) =>
                rc == Ok(readNb) && WordValues(dest[..readNb]) == out && dest[readNb..] == old(dest[readNb..])
              case Err(e) => rc == Err(e) && dest[..] == old(dest[..])
    {
      hide Crc16, Callable, Sendable, Sent, Received, ClientResult;
      hide Complete, CheckPdu, Interpret, RequestPdu, IsMessage;
      if MAX_RW_WRITE_REGISTERS < |src| {
        return Err(TooManyData);
      }
      if MAX_READ_REGISTERS < readNb {
        return Err(TooManyData);
      }
      ghost var r := WriteAndReadRegisters(writeAddr, src, readAddr, readNb);
      var req := new byte[MAX_MESSAGE_LENGTH];
      var rsp := new byte[MAX_MESSAGE_LENGTH];
      SendableAfter(State(), r);
      var n := BuildWriteAndRead(writeAddr, src, readAddr, readNb, req);
      ghost var a;
      rc, a := Transact(req, n, rsp, r);
      if rc.Ok? {
        DeliverRegisters(rsp, a, rc.value, dest, r);
      }
    }
  }

  lemma CompleteHasTwo(pdu: seq<byte>)
    requires Complete(Confirmation, pdu)
    ensures 2 <= |pdu|
  {
  }

  lemma ResultFromError(be: Backend, r: Request, req: seq<byte>, down: seq<byte>)
    requires !TooMany(r) && be.HeaderLength() <= |req|
    requires Receive(be, Confirmation, down).result.Err?
    ensures ClientResult(be, r, req, down) == Err(Receive(be, Confirmation, down).result.error)
  {
  }

  lemma SendableAfter(w: World, r: Request)
    requires Callable(w, r) && !TooMany(r)
    ensures Sendable(Numbered(w), r)
    ensures Call(w, r).0 == Received(Sent(Numbered(w), r))
    ensures var s := Sent(Numbered(w), r);
            && s.be == w.be && s.clientSlave == w.clientSlave && s.tid == TidFor(w.be, w.tid)
            && w.be.HeaderLength() <= |RequestFrame(w.be, s.tid, w.clientSlave, r)|
            && Call(w, r).1 == ClientResult(w.be, r, RequestFrame(w.be, s.tid, w.clientSlave, r), s.down)
  {
    hide Crc16, RequestPdu, Servable, ServerTurn, ClientResult, Complete;
    RequestIsComplete(r);
    FrameParts(w.be, TidFor(w.be, w.tid), w.clientSlave, RequestPdu(r));
  }
}
