/**
 Client and server together.  `Direct` is what a call means on four plain arrays; the theorems say that a
 call through requests, responses and a byte stream is exactly that, for every run of calls.
 */
module EndToEnd {
  import opened Bytes
  import opened Bits
  import opened BitPacking
  import opened Protocol
  import opened Receiver
  import opened ServerModel
  import opened ClientModel

  // ----- the reference: calls on four arrays

  function DirectRead<T>(table: seq<T>, addr: nat, nb: nat): Result<seq<T>> {
    if nb == 0 then Err(BadData)
    else if |table| < addr + nb then Err(ModbusException(ILLEGAL_DATA_ADDRESS))
    else Ok(table[addr..addr + nb])
  }

  function DirectWrite<T>(table: seq<T>, addr: nat, values: seq<T>): Result<seq<T>> {
    if |table| < addr + |values| then Err(ModbusException(ILLEGAL_DATA_ADDRESS))
    else Ok(Splice(table, addr, values))
  }

  function BitsOutcome(r: Result<seq<byte>>): Result<Outcome> {
    match r case Ok(v) => Ok(BitValues(v)) case Err(e) => Err(e)
  }

  function WordsOutcome(r: Result<seq<word>>): Result<Outcome> {
    match r case Ok(v) => Ok(WordValues(v)) case Err(e) => Err(e)
  }

  function StoreBits(t: Tables, r: Result<seq<byte>>, nb: nat): (Tables, Result<Outcome>) {
    match r case Ok(v) => (t.(bits := v), Ok(Written(nb))) case Err(e) => (t, Err(e))
  }

  function StoreRegisters(t: Tables, r: Result<seq<word>>, nb: nat): (Tables, Result<Outcome>) {
    match r case Ok(v) => (t.(registers := v), Ok(Written(nb))) case Err(e) => (t, Err(e))
  }

  function Direct(t: Tables, r: Request): (Tables, Result<Outcome>) {
    if TooMany(r) then (t, Err(TooManyData))
    else
      match r
      case ReadBits(addr, nb) => (t, BitsOutcome(DirectRead(t.bits, addr, nb)))
      case ReadInputBits(addr, nb) => (t, BitsOutcome(DirectRead(t.inputBits, addr, nb)))
      case ReadRegisters(addr, nb) => (t, WordsOutcome(DirectRead(t.registers, addr, nb)))
      case ReadInputRegisters(addr, nb) => (t, WordsOutcome(DirectRead(t.inputRegisters, addr, nb)))
      case WriteBit(addr, status) => StoreBits(t, DirectWrite(t.bits, addr, [Unit(status)]), 1)
      case WriteRegister(addr, value) => StoreRegisters(t, DirectWrite(t.registers, addr, [value]), 1)
      case WriteBits(addr, bits) => StoreBits(t, DirectWrite(t.bits, addr, Normalized(bits)), |bits|)
      case WriteRegisters(addr, values) => StoreRegisters(t, DirectWrite(t.registers, addr, values), |values|)
      case WriteAndReadRegisters(writeAddr, src, readAddr, readNb) =>
        if readNb == 0 then (t, Err(BadData))
        else if src == [] then (t, Err(ModbusException(ILLEGAL_DATA_VALUE)))
        else if |t.registers| < readAddr + readNb || |t.registers| < writeAddr + |src| then
          (t, Err(ModbusException(ILLEGAL_DATA_ADDRESS)))
        else
          var written := Splice(t.registers, writeAddr, src);
          (t.(registers := written), Ok(WordValues(written[readAddr..readAddr + readNb])))
  }

  // ----- requests are framed exactly

  lemma RequestIsComplete(r: Request)
    requires !TooMany(r)
    ensures Complete(Indication, RequestPdu(r)) && |RequestPdu(r)| <= 252
  {
    hide ByteCount, WordBytes, Pack;
    ByteCountFits();
    var pdu := RequestPdu(r);
    if r.WriteBits? {
      assert pdu[5] == ByteCount(|r.bits|);
    } else if r.WriteRegisters? {
      assert pdu[5] == 2 * |r.values|;
    } else if r.WriteAndReadRegisters? {
      assert pdu[9] == 2 * |r.src|;
    }
  }

  lemma RequestDataIsPresent(t: Tables, r: Request)
    requires !TooMany(r)
    ensures Complete(Indication, RequestPdu(r)) && DataPresent(t, RequestPdu(r))
  {
    RequestIsComplete(r);
    RequestFields(r);
    hide ByteCount, WordBytes, Pack;
  }

  // ----- one exchange, PDU by PDU

  /** An exception is recognised unless the expected answer happens to have the length of an exception. */
  lemma CheckException(req: seq<byte>, code: byte)
    requires 5 <= |req| && req[0] < 0x80 && code < EXCEPTION_MAX && req[0] != FC_REPORT_SLAVE_ID
    ensures CheckPdu(req, [ExceptionFunction(req[0]), code]) ==
            Err(if ExpectedLength(req) == 2 then BadData else ModbusException(code))
  {
    hide ByteCount;
  }

  /** A read of no coils: the server answers with an exception, and the client reports invalid data. */
  lemma ReadOfNothing(t: Tables)
    ensures RequestPdu(ReadBits(0, 0)) == [FC_READ_COILS, 0, 0, 0, 0]
    ensures ServeReadBits(t.bits, [FC_READ_COILS, 0, 0, 0, 0]) == Exception(ILLEGAL_DATA_VALUE)
    ensures CheckPdu([FC_READ_COILS, 0, 0, 0, 0], [0x81, ILLEGAL_DATA_VALUE]) == Err(BadData)
  {
    CheckException([FC_READ_COILS, 0, 0, 0, 0], ILLEGAL_DATA_VALUE);
  }

  lemma ExceptionIsComplete(f: byte, code: byte)
    requires f < 0x80
    ensures Complete(Confirmation, [ExceptionFunction(f), code])
  {
  }

  lemma InterpretException(r: Request, f: byte, code: byte)
    requires !TooMany(r) && f == RequestPdu(r)[0] && code < EXCEPTION_MAX
    ensures var rsp := [ExceptionFunction(f), code];
            && Complete(Confirmation, rsp)
            && Interpret(r, rsp) == Err(if ExpectedLength(RequestPdu(r)) == 2 then BadData else ModbusException(code))
  {
    CheckException(RequestPdu(r), code);
    ExceptionIsComplete(f, code);
  }

  lemma InterpretBits(r: Request, data: seq<byte>)
    requires (r.ReadBits? || r.ReadInputBits?) && !TooMany(r)
    requires |data| == ByteCount(r.nb)
    ensures |data| <= 250
    ensures var rsp := [FunctionOf(r), |data|] + data;
            Complete(Confirmation, rsp) && Interpret(r, rsp) == Ok(BitValues(Unpack(data, r.nb)))
  {
    hide ByteCount, RequestPdu, Unpack;
    ByteCountFits();
    RequestFields(r);
    var rsp := [FunctionOf(r), |data|] + data;
    assert rsp[2..] == data;
  }

  lemma ServedBits(table: seq<byte>, r: Request)
    requires (r.ReadBits? || r.ReadInputBits?) && !TooMany(r)
    ensures ServeReadBits(table, RequestPdu(r)) ==
            if r.nb < 1 then Exception(ILLEGAL_DATA_VALUE)
            else if |table| < r.addr + r.nb then Exception(ILLEGAL_DATA_ADDRESS)
            else (ByteCountFits();
                  Normal([FunctionOf(r), ByteCount(r.nb)] + IoStatus(table[r.addr..r.addr + r.nb])))
  {
    hide ByteCount, IoStatus, RequestPdu;
    RequestFields(r);
    ByteCountFits();
  }

  lemma ReadBitsAgrees(table: seq<byte>, r: Request)
    requires (r.ReadBits? || r.ReadInputBits?) && !TooMany(r)
    requires ZeroOne(table)
    ensures !ServeReadBits(table, RequestPdu(r)).Silence?
    ensures var rsp := ResponsePdu(FunctionOf(r), ServeReadBits(table, RequestPdu(r)));
            Complete(Confirmation, rsp) && Interpret(r, rsp) == BitsOutcome(DirectRead(table, r.addr, r.nb))
  {
    hide ByteCount, Interpret, IoStatus, Unpack, ServeReadBits, RequestPdu, Complete;
    ServedBits(table, r);
    RequestFields(r);
    ByteCountFits();
    if 1 <= r.nb && r.addr + r.nb <= |table| {
      var part := table[r.addr..r.addr + r.nb];
      IoStatusRoundTrip(part);
      InterpretBits(r, IoStatus(part));
    } else {
      InterpretException(r, FunctionOf(r), if r.nb < 1 then ILLEGAL_DATA_VALUE else ILLEGAL_DATA_ADDRESS);
    }
  }

  predicate ReadsRegisters(r: Request) {
    r.ReadRegisters? || r.ReadInputRegisters?
  }

  lemma InterpretWords(r: Request, words: seq<word>)
    requires (ReadsRegisters(r) || r.WriteAndReadRegisters?) && !TooMany(r)
    requires |words| == QuantityOf(r)
    ensures var rsp := [FunctionOf(r), 2 * |words|] + WordBytes(words);
            Complete(Confirmation, rsp) && Interpret(r, rsp) == Ok(WordValues(words))
  {
    hide ByteCount, RequestPdu, WordBytes, WordsOf;
    RequestFields(r);
    WordsOfWordBytes(words);
    var rsp := [FunctionOf(r), 2 * |words|] + WordBytes(words);
    assert rsp[2..] == WordBytes(words);
  }

  lemma ServedRegisters(table: seq<word>, r: Request)
    requires ReadsRegisters(r) && !TooMany(r)
    ensures ServeReadRegisters(table, RequestPdu(r)) ==
            if r.nb < 1 then Exception(ILLEGAL_DATA_VALUE)
            else if |table| < r.addr + r.nb then Exception(ILLEGAL_DATA_ADDRESS)
            else Normal([FunctionOf(r), 2 * r.nb] + WordBytes(table[r.addr..r.addr + r.nb]))
  {
    hide WordBytes, RequestPdu;
    RequestFields(r);
  }

  lemma ReadRegistersAgrees(table: seq<word>, r: Request)
    requires ReadsRegisters(r) && !TooMany(r)
    ensures !ServeReadRegisters(table, RequestPdu(r)).Silence?
    ensures var rsp := ResponsePdu(FunctionOf(r), ServeReadRegisters(table, RequestPdu(r)));
            Complete(Confirmation, rsp) && Interpret(r, rsp) == WordsOutcome(DirectRead(table, r.addr, r.nb))
  {
    hide Interpret, WordBytes, WordsOf, ServeReadRegisters, RequestPdu, Complete;
    ServedRegisters(table, r);
    RequestFields(r);
    if 1 <= r.nb && r.addr + r.nb <= |table| {
      InterpretWords(r, table[r.addr..r.addr + r.nb]);
    } else {
      InterpretException(r, FunctionOf(r), if r.nb < 1 then ILLEGAL_DATA_VALUE else ILLEGAL_DATA_ADDRESS);
    }
  }

  /** The number a write call returns. */
  function WriteCount(r: Request): nat
    requires !TooMany(r)
  {
    if r.WriteBits? || r.WriteRegisters? then QuantityOf(r) else 1
  }

  predicate Writes(r: Request) {
    r.WriteBit? || r.WriteRegister? || r.WriteBits? || r.WriteRegisters?
  }

  /** The confirmation of a write repeats the first five bytes of the request. */
  lemma InterpretWrite(r: Request)
    requires Writes(r) && !TooMany(r)
    ensures var rsp := RequestPdu(r)[..5];
            Complete(Confirmation, rsp) && Interpret(r, rsp) == Ok(Written(WriteCount(r)))
  {
    hide ByteCount, RequestPdu;
    RequestFields(r);
    var rsp := RequestPdu(r)[..5];
    assert WordAt(rsp, 3) == QuantityOf(r);
  }

  lemma SpliceOne<T>(table: seq<T>, at: nat, x: T)
    requires at < |table|
    ensures table[at := x] == Splice(table, at, [x])
  {
  }

  lemma ServedWriteBit(table: seq<byte>, r: Request)
    requires r.WriteBit?
    ensures ServeWriteBit(table, RequestPdu(r)) ==
            if |table| <= r.addr then (table, Exception(ILLEGAL_DATA_ADDRESS))
            else (Splice(table, r.addr, [Unit(r.status)]), Normal(RequestPdu(r)[..5]))
  {
    hide RequestPdu, Splice;
    RequestFields(r);
    assert RequestPdu(r)[..5] == RequestPdu(r);
    if r.addr < |table| {
      SpliceOne(table, r.addr, Unit(r.status));
    }
  }

  lemma ServedWriteRegister(table: seq<word>, r: Request)
    requires r.WriteRegister?
    ensures ServeWriteRegister(table, RequestPdu(r)) ==
            if |table| <= r.addr then (table, Exception(ILLEGAL_DATA_ADDRESS))
            else (Splice(table, r.addr, [r.value]), Normal(RequestPdu(r)[..5]))
  {
    hide RequestPdu, Splice;
    RequestFields(r);
    assert RequestPdu(r)[..5] == RequestPdu(r);
    if r.addr < |table| {
      SpliceOne(table, r.addr, r.value);
    }
  }

  lemma ServedWriteBits(table: seq<byte>, r: Request)
    requires r.WriteBits? && !TooMany(r)
    ensures 6 + ByteCount(|r.bits|) == |RequestPdu(r)|
    ensures WordAt(RequestPdu(r), 3) == |r.bits|
    ensures ServeWriteBits(table, RequestPdu(r), []) ==
            if |table| < r.addr + |r.bits| then (table, Exception(ILLEGAL_DATA_ADDRESS))
            else (Splice(table, r.addr, Normalized(r.bits)), Normal(RequestPdu(r)[..5]))
  {
    hide Pack, Unpack, Normalized, ByteCount;
    RequestFields(r);
    UnpackOfPack(r.bits);
    assert RequestPdu(r)[6..] + [] == Pack(r.bits);
  }

  lemma ServedWriteRegisters(table: seq<word>, r: Request)
    requires r.WriteRegisters? && !TooMany(r)
    ensures 6 + 2 * |r.values| == |RequestPdu(r)|
    ensures WordAt(RequestPdu(r), 3) == |r.values|
    ensures ServeWriteRegisters(table, RequestPdu(r), []) ==
            if |table| < r.addr + |r.values| then (table, Exception(ILLEGAL_DATA_ADDRESS))
            else (Splice(table, r.addr, r.values), Normal(RequestPdu(r)[..5]))
  {
    hide WordBytes, WordsOf;
    RequestFields(r);
    WordsOfWordBytes(r.values);
    assert RequestPdu(r)[6..] + [] == WordBytes(r.values);
  }

  lemma WriteAndReadFields(r: Request)
    requires r.WriteAndReadRegisters? && !TooMany(r)
    ensures var pdu := RequestPdu(r);
            && |pdu| == 10 + 2 * |r.src| && pdu[9] == 2 * |r.src| && pdu[10..] == WordBytes(r.src)
            && WordAt(pdu, 5) == r.writeAddr && WordAt(pdu, 7) == |r.src|
  {
    hide WordBytes;
  }

  lemma ServedWriteAndRead(table: seq<word>, r: Request)
    requires r.WriteAndReadRegisters? && !TooMany(r)
    ensures |RequestPdu(r)| == 10 + 2 * |r.src| && RequestPdu(r)[9] == 2 * |r.src|
    ensures ServeWriteAndRead(table, RequestPdu(r)) ==
            if r.src == [] || r.readNb < 1 then (table, Exception(ILLEGAL_DATA_VALUE))
            else if |table| < r.readAddr + r.readNb || |table| < r.writeAddr + |r.src| then
              (table, Exception(ILLEGAL_DATA_ADDRESS))
            else
              var written := Splice(table, r.writeAddr, r.src);
              (written, Normal([FunctionOf(r), 2 * r.readNb] +
                               WordBytes(written[r.readAddr..r.readAddr + r.readNb])))
  {
    hide WordBytes, WordsOf, RequestPdu, Splice;
    RequestFields(r);
    WriteAndReadFields(r);
    WordsOfWordBytes(r.src);
  }

  // ----- every request, one exchange

  /** What the server answers to a request, framed as the client expects and read as `Direct` says. */
  ghost predicate Agrees(t: Tables, r: Request)
    requires !TooMany(r)
  {
    RequestDataIsPresent(t, r);
    RequestFields(r);
    var (t', answer) := Serve(t, RequestPdu(r));
    && !answer.Silence?
    && Complete(Confirmation, ResponsePdu(FunctionOf(r), answer))
    && (t', Interpret(r, ResponsePdu(FunctionOf(r), answer))) == Direct(t, r)
  }

  lemma ReadAgrees(t: Tables, r: Request)
    requires !TooMany(r) && (r.ReadBits? || r.ReadInputBits? || ReadsRegisters(r))
    requires ZeroOne(t.bits) && ZeroOne(t.inputBits)
    ensures Agrees(t, r)
  {
    hide Complete, DataPresent, Interpret, RequestPdu, ServeReadBits, ServeReadRegisters, DirectRead, ZeroOne;
    RequestDataIsPresent(t, r);
    RequestFields(r);
    match r
    case ReadBits(_, _) => ReadBitsAgrees(t.bits, r);
    case ReadInputBits(_, _) => ReadBitsAgrees(t.inputBits, r);
    case ReadRegisters(_, _) => ReadRegistersAgrees(t.registers, r);
    case ReadInputRegisters(_, _) => ReadRegistersAgrees(t.inputRegisters, r);
  }

  lemma WriteBitsAgrees(t: Tables, r: Request)
    requires !TooMany(r) && (r.WriteBit? || r.WriteBits?)
    ensures Agrees(t, r)
  {
    hide Complete, DataPresent, Interpret, RequestPdu, ServeWriteBit, ServeWriteBits, Normalized, ByteCount, Splice;
    RequestDataIsPresent(t, r);
    RequestFields(r);
    InterpretException(r, FunctionOf(r), ILLEGAL_DATA_ADDRESS);
    InterpretWrite(r);
    if r.WriteBit? {
      ServedWriteBit(t.bits, r);
    } else {
      ServedWriteBits(t.bits, r);
    }
  }

  lemma WriteRegistersAgrees(t: Tables, r: Request)
    requires !TooMany(r) && (r.WriteRegister? || r.WriteRegisters?)
    ensures Agrees(t, r)
  {
    hide Complete, DataPresent, Interpret, RequestPdu, ServeWriteRegister, ServeWriteRegisters, ByteCount, Splice;
    RequestDataIsPresent(t, r);
    RequestFields(r);
    InterpretException(r, FunctionOf(r), ILLEGAL_DATA_ADDRESS);
    InterpretWrite(r);
    if r.WriteRegister? {
      ServedWriteRegister(t.registers, r);
    } else {
      ServedWriteRegisters(t.registers, r);
    }
  }

  lemma WriteAndReadAgrees(t: Tables, r: Request)
    requires !TooMany(r) && r.WriteAndReadRegisters?
    ensures Agrees(t, r)
  {
    hide Complete, DataPresent, Interpret, RequestPdu, ServeWriteAndRead, WordBytes, ByteCount, Splice;
    RequestDataIsPresent(t, r);
    RequestFields(r);
    ServedWriteAndRead(t.registers, r);
    if r.src == [] || r.readNb < 1 {
      InterpretException(r, FunctionOf(r), ILLEGAL_DATA_VALUE);
    } else if |t.registers| < r.readAddr + r.readNb || |t.registers| < r.writeAddr + |r.src| {
      InterpretException(r, FunctionOf(r), ILLEGAL_DATA_ADDRESS);
    } else {
      InterpretWords(r, Splice(t.registers, r.writeAddr, r.src)[r.readAddr..r.readAddr + r.readNb]);
    }
  }

  lemma ExchangeAgrees(t: Tables, r: Request)
    requires !TooMany(r)
    requires ZeroOne(t.bits) && ZeroOne(t.inputBits)
    ensures Agrees(t, r)
  {
    match r
    case WriteBit(_, _) => WriteBitsAgrees(t, r);
    case WriteBits(_, _) => WriteBitsAgrees(t, r);
    case WriteRegister(_, _) => WriteRegistersAgrees(t, r);
    case WriteRegisters(_, _) => WriteRegistersAgrees(t, r);
    case WriteAndReadRegisters(_, _, _, _) => WriteAndReadAgrees(t, r);
    case _ => ReadAgrees(t, r);
  }
}
