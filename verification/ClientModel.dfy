/**
 The client functions of the library as functions of what is sent and received: the PDU of each request,
 the check of a confirmation, and the values read out of it.
 */
module ClientModel {
  import opened Bytes
  import opened BitPacking
  import opened Protocol
  import opened Receiver

  /** One call of a client function, with its arguments. */
  datatype Request =
    | ReadBits(addr: word, nb: nat)
    | ReadInputBits(addr: word, nb: nat)
    | ReadRegisters(addr: word, nb: nat)
    | ReadInputRegisters(addr: word, nb: nat)
    | WriteBit(addr: word, status: bool)
    | WriteRegister(addr: word, value: word)
    | WriteBits(addr: word, bits: seq<byte>)
    | WriteRegisters(addr: word, values: seq<word>)
    | WriteAndReadRegisters(writeAddr: word, src: seq<word>, readAddr: word, readNb: nat)

  /** What a successful call delivers: values read, or the number of values written. */
  datatype Outcome = BitValues(bits: seq<byte>) | WordValues(words: seq<word>) | Written(count: nat)

  /** The calls that are refused before anything is sent. */
  predicate TooMany(r: Request) {
    match r
    case ReadBits(_, nb) => MAX_READ_BITS < nb
    case ReadInputBits(_, nb) => MAX_READ_BITS < nb
    case ReadRegisters(_, nb) => MAX_READ_REGISTERS < nb
    case ReadInputRegisters(_, nb) => MAX_READ_REGISTERS < nb
    case WriteBit(_, _) => false
    case WriteRegister(_, _) => false
    case WriteBits(_, bits) => MAX_WRITE_BITS < |bits|
    case WriteRegisters(_, values) => MAX_WRITE_REGISTERS < |values|
    case WriteAndReadRegisters(_, src, _, nb) => MAX_RW_WRITE_REGISTERS < |src| || MAX_READ_REGISTERS < nb
  }

  function BasicPdu(f: byte, addr: word, nb: word): seq<byte> {
    [f, Hi(addr), Lo(addr), Hi(nb), Lo(nb)]
  }

  function RequestPdu(r: Request): (pdu: seq<byte>)
    requires !TooMany(r)
    ensures 5 <= |pdu|
  {
    match r
    case ReadBits(addr, nb) => BasicPdu(FC_READ_COILS, addr, nb)
    case ReadInputBits(addr, nb) => BasicPdu(FC_READ_DISCRETE_INPUTS, addr, nb)
    case ReadRegisters(addr, nb) => BasicPdu(FC_READ_HOLDING_REGISTERS, addr, nb)
    case ReadInputRegisters(addr, nb) => BasicPdu(FC_READ_INPUT_REGISTERS, addr, nb)
    case WriteBit(addr, status) => BasicPdu(FC_WRITE_SINGLE_COIL, addr, if status then 0xFF00 else 0)
    case WriteRegister(addr, value) => BasicPdu(FC_WRITE_SINGLE_REGISTER, addr, value)
    case WriteBits(addr, bits) =>
      BasicPdu(FC_WRITE_MULTIPLE_COILS, addr, |bits|) + [ByteCount(|bits|)] + Pack(bits)
    case WriteRegisters(addr, values) =>
      BasicPdu(FC_WRITE_MULTIPLE_REGISTERS, addr, |values|) + [2 * |values|] + WordBytes(values)
    case WriteAndReadRegisters(writeAddr, src, readAddr, readNb) =>
      BasicPdu(FC_WRITE_AND_READ_REGISTERS, readAddr, readNb) +
      [Hi(writeAddr), Lo(writeAddr), Hi(|src|), Lo(|src|), 2 * |src|] + WordBytes(src)
  }

  /** The function code of a request. */
  function FunctionOf(r: Request): byte {
    match r
    case ReadBits(_, _) => FC_READ_COILS
    case ReadInputBits(_, _) => FC_READ_DISCRETE_INPUTS
    case ReadRegisters(_, _) => FC_READ_HOLDING_REGISTERS
    case ReadInputRegisters(_, _) => FC_READ_INPUT_REGISTERS
    case WriteBit(_, _) => FC_WRITE_SINGLE_COIL
    case WriteRegister(_, _) => FC_WRITE_SINGLE_REGISTER
    case WriteBits(_, _) => FC_WRITE_MULTIPLE_COILS
    case WriteRegisters(_, _) => FC_WRITE_MULTIPLE_REGISTERS
    case WriteAndReadRegisters(_, _, _, _) => FC_WRITE_AND_READ_REGISTERS
  }

  /** The address field of a request. */
  function AddressOf(r: Request): word {
    if r.WriteAndReadRegisters? then r.readAddr else r.addr
  }

  /** The quantity field of a request. */
  function QuantityOf(r: Request): word
    requires !TooMany(r)
  {
    match r
    case WriteBit(_, status) => if status then 0xFF00 else 0
    case WriteRegister(_, value) => value
    case WriteBits(_, bits) => |bits|
    case WriteRegisters(_, values) => |values|
    case WriteAndReadRegisters(_, _, _, nb) => nb
    case _ => r.nb
  }

  lemma RequestFields(r: Request)
    requires !TooMany(r)
    ensures var pdu := RequestPdu(r);
            && 5 <= |pdu| && pdu[0] == FunctionOf(r)
            && WordAt(pdu, 1) == AddressOf(r) && WordAt(pdu, 3) == QuantityOf(r)
            && (!r.WriteBits? && !r.WriteRegisters? && !r.WriteAndReadRegisters? ==> |pdu| == 5)
  {
    hide ByteCount, WordBytes, Pack;
  }

  // ----- the check of a confirmation

  /** `compute_response_length_from_request`, without header and checksum; -1 for MSG_LENGTH_UNDEFINED. */
  function ExpectedLength(req: seq<byte>): (length: int)
    requires 5 <= |req|
    ensures length == -1 || 2 <= length
  {
    var f := req[0];
    if f == FC_READ_COILS || f == FC_READ_DISCRETE_INPUTS then 2 + ByteCount(WordAt(req, 3))
    else if f == FC_WRITE_AND_READ_REGISTERS || f == FC_READ_HOLDING_REGISTERS || f == FC_READ_INPUT_REGISTERS
    then 2 + 2 * WordAt(req, 3)
    else if f == FC_READ_EXCEPTION_STATUS then 3
    else if f == FC_REPORT_SLAVE_ID then -1
    else 5
  }

  /** `check_confirmation` on the PDUs of a request and of a response: the number of values, or the error. */
  function CheckPdu(req: seq<byte>, rsp: seq<byte>): Result<nat>
    requires 5 <= |req| && 2 <= |rsp|
  {
    var f, expected := rsp[0], ExpectedLength(req);
    var quantity: nat, count: nat := WordAt(req, 3), rsp[1];
    if |rsp| == expected || expected == -1 then
      if f != req[0] then Err(BadData)
      else if f == FC_READ_COILS || f == FC_READ_DISCRETE_INPUTS then
        if ByteCount(quantity) == count then Ok(count) else Err(BadData)
      else if f == FC_WRITE_AND_READ_REGISTERS || f == FC_READ_HOLDING_REGISTERS || f == FC_READ_INPUT_REGISTERS then
        if quantity == count / 2 then Ok(count / 2) else Err(BadData)
      else if f == FC_WRITE_MULTIPLE_COILS || f == FC_WRITE_MULTIPLE_REGISTERS then
        if quantity == WordAt(rsp, 3) then Ok(quantity) else Err(BadData)
      else if f == FC_REPORT_SLAVE_ID then Ok(count)
      else Ok(1)
    else if |rsp| == 2 && req[0] == rsp[0] as int - 0x80 then
      Err(if rsp[1] < EXCEPTION_MAX then ModbusException(rsp[1]) else BadExceptionCode)
    else Err(BadData)
  }

  /** `check_confirmation`: over TCP the transaction ids must agree as well. */
  function CheckConfirmation(be: Backend, req: seq<byte>, rsp: seq<byte>): Result<nat>
    requires be.HeaderLength() + 5 + be.ChecksumLength() <= |req|
    requires be.HeaderLength() + 2 + be.ChecksumLength() <= |rsp|
  {
    if be.Tcp? && (req[0] != rsp[0] || req[1] != rsp[1]) then Err(BadData)
    else CheckPdu(PduOf(be, req), PduOf(be, rsp))
  }

  // ----- reading the values

  /** What a call delivers once `rc` values of the response `rsp` are accepted. */
  function Deliver(r: Request, rsp: seq<byte>, rc: nat): Outcome
    requires r.ReadBits? || r.ReadInputBits? ==> ByteCount(r.nb) == rc && 2 + rc <= |rsp|
    requires r.ReadRegisters? || r.ReadInputRegisters? || r.WriteAndReadRegisters? ==> 2 + 2 * rc <= |rsp|
  {
    match r
    case ReadBits(_, nb) => BitValues(Unpack(rsp[2..], nb))
    case ReadInputBits(_, nb) => BitValues(Unpack(rsp[2..], nb))
    case ReadRegisters(_, _) => WordValues(WordsOf(rsp[2..], rc))
    case ReadInputRegisters(_, _) => WordValues(WordsOf(rsp[2..], rc))
    case WriteAndReadRegisters(_, _, _, _) => WordValues(WordsOf(rsp[2..], rc))
    case _ => Written(rc)
  }

  /** An accepted answer to a read holds the data of that read, exactly. */
  lemma AcceptedRead(r: Request, rsp: seq<byte>)
    requires !TooMany(r) && Complete(Confirmation, rsp)
    requires CheckPdu(RequestPdu(r), rsp).Ok?
    ensures r.ReadBits? || r.ReadInputBits? ==>
              rsp[1] == ByteCount(r.nb) == CheckPdu(RequestPdu(r), rsp).value && |rsp| == 2 + rsp[1]
    ensures r.ReadRegisters? || r.ReadInputRegisters? ==>
              rsp[1] == 2 * r.nb == 2 * CheckPdu(RequestPdu(r), rsp).value && |rsp| == 2 + rsp[1]
    ensures r.WriteAndReadRegisters? ==>
              rsp[1] == 2 * r.readNb == 2 * CheckPdu(RequestPdu(r), rsp).value && |rsp| == 2 + rsp[1]
    ensures r.WriteBit? || r.WriteRegister? ==> CheckPdu(RequestPdu(r), rsp).value == 1
    ensures r.WriteBits? ==> CheckPdu(RequestPdu(r), rsp).value == |r.bits|
    ensures r.WriteRegisters? ==> CheckPdu(RequestPdu(r), rsp).value == |r.values|
    ensures rsp[0] == RequestPdu(r)[0]
  {
    hide ByteCount, RequestPdu;
    RequestFields(r);
  }

  /** The response to a call, as its PDU, or why there is none. */
  function Interpret(r: Request, rsp: seq<byte>): Result<Outcome>
    requires !TooMany(r) && Complete(Confirmation, rsp)
  {
    match CheckPdu(RequestPdu(r), rsp)
    case Err(e) => Err(e)
    case Ok(rc) =>
      AcceptedRead(r, rsp);
      Ok(Deliver(r, rsp, rc))
  }
}
