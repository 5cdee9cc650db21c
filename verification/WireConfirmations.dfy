/** What the client makes of a confirmation, in numbers: the values it reads out of it, or the error. */
module WireConfirmations {
  import opened Bytes
  import opened BitPacking
  import opened Protocol
  import opened Receiver
  import opened ClientModel
  import opened WireFormat

  function CodeOf(r: Request): byte {
    match r
    case ReadBits(_, _) => 1
    case ReadInputBits(_, _) => 2
    case ReadRegisters(_, _) => 3
    case ReadInputRegisters(_, _) => 4
    case WriteBit(_, _) => 5
    case WriteRegister(_, _) => 6
    case WriteBits(_, _) => 15
    case WriteRegisters(_, _) => 16
    case WriteAndReadRegisters(_, _, _, _) => 23
  }

  /** How long the normal confirmation is. */
  function NormalSize(r: Request): nat {
    match r
    case ReadBits(_, nb) => 2 + (nb + 7) / 8
    case ReadInputBits(_, nb) => 2 + (nb + 7) / 8
    case ReadRegisters(_, nb) => 2 + 2 * nb
    case ReadInputRegisters(_, nb) => 2 + 2 * nb
    case WriteAndReadRegisters(_, _, _, nb) => 2 + 2 * nb
    case _ => 5
  }

  predicate BitsRead(nb: nat, rsp: seq<byte>, out: Result<Outcome>)
    requires |rsp| == 2 + (nb + 7) / 8
  {
    && out.Ok? && out.value.BitValues? && |out.value.bits| == nb
    && forall i :: 0 <= i < nb ==> out.value.bits[i] == Bit(rsp[2 + i / 8], i % 8)
  }

  predicate WordsRead(nb: nat, rsp: seq<byte>, out: Result<Outcome>)
    requires |rsp| == 2 + 2 * nb
  {
    && out.Ok? && out.value.WordValues? && |out.value.words| == nb
    && forall i :: 0 <= i < nb ==> out.value.words[i] == Field(rsp, 2 + 2 * i)
  }

  /** Of a write only the quantity is checked, and of a single write nothing but its function. */
  predicate Accepted(r: Request, rsp: seq<byte>, out: Result<Outcome>)
    requires |rsp| == NormalSize(r)
  {
    match r
    case ReadBits(_, nb) => BitsRead(nb, rsp, out)
    case ReadInputBits(_, nb) => BitsRead(nb, rsp, out)
    case ReadRegisters(_, nb) => WordsRead(nb, rsp, out)
    case ReadInputRegisters(_, nb) => WordsRead(nb, rsp, out)
    case WriteAndReadRegisters(_, _, _, nb) => WordsRead(nb, rsp, out)
    case WriteBit(_, _) => out == Ok(Written(1))
    case WriteRegister(_, _) => out == Ok(Written(1))
    case WriteBits(_, bits) => out == if Field(rsp, 3) == |bits| then Ok(Written(|bits|)) else Err(BadData)
    case WriteRegisters(_, values) => out == if Field(rsp, 3) == |values| then Ok(Written(|values|)) else Err(BadData)
  }

  lemma SizeInNumbers(r: Request)
    requires !TooMany(r)
    ensures ExpectedLength(RequestPdu(r)) == NormalSize(r) && RequestPdu(r)[0] == FunctionOf(r) == CodeOf(r)
  {
    hide RequestPdu, ByteCount;
    RequestFields(r);
    if r.ReadBits? || r.ReadInputBits? {
      CountInNumbers(r.nb);
    }
  }

  lemma BitsAreRead(nb: nat, rsp: seq<byte>)
    requires |rsp| == 2 + (nb + 7) / 8
    ensures ByteCount(nb) <= |rsp[2..]| && BitsRead(nb, rsp, Ok(BitValues(Unpack(rsp[2..], nb))))
  {
    hide Unpack, Bit;
    UnpackInNumbers(rsp[2..], nb);
  }

  lemma WordsAreRead(nb: nat, rsp: seq<byte>)
    requires |rsp| == 2 + 2 * nb
    ensures WordsRead(nb, rsp, Ok(WordValues(WordsOf(rsp[2..], nb))))
  {
  }

  /** The outcome of a call from the PDU of the confirmation, whichever that is. */
  lemma ConfirmationInNumbers(r: Request, rsp: seq<byte>)
    requires !TooMany(r) && Shape(Confirmation, rsp)
    ensures Complete(Confirmation, rsp)
    ensures var out := Interpret(r, rsp);
            if |rsp| == NormalSize(r) then
              if rsp[0] == CodeOf(r) then Accepted(r, rsp, out) else out == Err(BadData)
            else if |rsp| == 2 && rsp[0] == CodeOf(r) + 128 then
              out == Err(if rsp[1] < 12 then ModbusException(rsp[1]) else BadExceptionCode)
            else out == Err(BadData)
  {
    hide RequestPdu, ByteCount, Unpack, WordsOf, BitsRead, WordsRead;
    ShapeIff(Confirmation, rsp);
    SizeInNumbers(r);
    RequestFields(r);
    if |rsp| == NormalSize(r) && rsp[0] == CodeOf(r) {
      match r
      case ReadBits(_, nb) => CountInNumbers(nb); BitsAreRead(nb, rsp);
      case ReadInputBits(_, nb) => CountInNumbers(nb); BitsAreRead(nb, rsp);
      case ReadRegisters(_, nb) => WordsAreRead(nb, rsp);
      case ReadInputRegisters(_, nb) => WordsAreRead(nb, rsp);
      case WriteAndReadRegisters(_, _, _, nb) => WordsAreRead(nb, rsp);
      case _ =>
    }
  }
}
