/**
 Whole sessions on the heap: a client object, a server's mapping, and the streams between them, for any
 sequence of calls.
 */
module Session {
  import opened Bytes
  import opened Protocol
  import opened ClientModel
  import opened EndToEnd
  import opened Runs
  import opened Server
  import opened ServerInvariants
  import opened Client

  /** One call of a client function, its values collected in an array of its own. */
  method Execute(c: Client, r: Request) returns (result: Result<Outcome>)
    requires c.Valid() && Callable(c.State(), r)
    modifies c`tid, c.link.up, c.link.down, c.link.mapping.tabBits, c.link.mapping.tabRegisters
    ensures c.State() == Call(old(c.State()), r).0
    ensures result == Call(old(c.State()), r).1
  {
    hide Call, Callable;
    match r
    case ReadBits(addr, nb) =>
      result := ExecuteReadBits(c, false, addr, nb);
    case ReadInputBits(addr, nb) =>
      result := ExecuteReadBits(c, true, addr, nb);
    case ReadRegisters(addr, nb) =>
      result := ExecuteReadRegisters(c, false, addr, nb);
    case ReadInputRegisters(addr, nb) =>
      result := ExecuteReadRegisters(c, true, addr, nb);
    case WriteBit(addr, status) =>
      var rc := c.ModbusWriteBit(addr, status);
      result := Counted(rc);
    case WriteRegister(addr, value) =>
      var rc := c.ModbusWriteRegister(addr, value);
      result := Counted(rc);
    case WriteBits(addr, bits) =>
      var rc := c.ModbusWriteBits(addr, bits);
      result := Counted(rc);
    case WriteRegisters(addr, values) =>
      var rc := c.ModbusWriteRegisters(addr, values);
      result := Counted(rc);
    case WriteAndReadRegisters(writeAddr, src, readAddr, readNb) =>
      var dest := new word[readNb];
      var rc := c.ModbusWriteAndReadRegisters(writeAddr, src, readAddr, readNb, dest);
      result := match rc case Ok(_) => Ok(WordValues(dest[..])) case Err(e) => Err(e);
      assert dest[..readNb] == dest[..];
  }

  function Counted(rc: Result<nat>): Result<Outcome> {
    match rc case Ok(n) => Ok(Written(n)) case Err(e) => Err(e)
  }

  function BitsRequest(inputs: bool, addr: word, nb: nat): Request {
    if inputs then ReadInputBits(addr, nb) else ReadBits(addr, nb)
  }

  function RegistersRequest(inputs: bool, addr: word, nb: nat): Request {
    if inputs then ReadInputRegisters(addr, nb) else ReadRegisters(addr, nb)
  }

  method ExecuteReadBits(c: Client, inputs: bool, addr: word, nb: nat) returns (result: Result<Outcome>)
    requires c.Valid() && Callable(c.State(), BitsRequest(inputs, addr, nb))
    modifies c`tid, c.link.up, c.link.down, c.link.mapping.tabBits, c.link.mapping.tabRegisters
    ensures c.State() == Call(old(c.State()), BitsRequest(inputs, addr, nb)).0
    ensures result == Call(old(c.State()), BitsRequest(inputs, addr, nb)).1
  {
    hide Call, Callable;
    var dest := new byte[nb];
    var rc := c.ModbusReadBits(inputs, addr, nb, dest, BitsRequest(inputs, addr, nb));
    result := match rc case Ok(_) => Ok(BitValues(dest[..])) case Err(e) => Err(e);
    assert dest[..nb] == dest[..];
  }

  method ExecuteReadRegisters(c: Client, inputs: bool, addr: word, nb: nat) returns (result: Result<Outcome>)
    requires c.Valid() && Callable(c.State(), RegistersRequest(inputs, addr, nb))
    modifies c`tid, c.link.up, c.link.down, c.link.mapping.tabBits, c.link.mapping.tabRegisters
    ensures c.State() == Call(old(c.State()), RegistersRequest(inputs, addr, nb)).0
    ensures result == Call(old(c.State()), RegistersRequest(inputs, addr, nb)).1
  {
    hide Call, Callable;
    var dest := new word[nb];
    var rc := c.ModbusReadRegisters(inputs, addr, nb, dest, RegistersRequest(inputs, addr, nb));
    result := match rc case Ok(_) => Ok(WordValues(dest[..])) case Err(e) => Err(e);
    assert dest[..nb] == dest[..];
  }

  /**
   Any sequence of calls over a quiet connection, each message cut by `Recv` as it likes: the values
   delivered, and the tables of the mapping in the end, are those of the same calls on four plain arrays.
   */
  method ExecuteAll(c: Client, rs: seq<Request>) returns (results: seq<Result<Outcome>>)
    requires c.Valid() && Quiet(c.State())
    modifies c`tid, c.link.up, c.link.down, c.link.mapping.tabBits, c.link.mapping.tabRegisters
    ensures Quiet(c.State())
    ensures c.link.mapping.Contents() == DirectRun(old(c.link.mapping.Contents()), rs).0
    ensures results == DirectRun(old(c.link.mapping.Contents()), rs).1
    decreases |rs|
  {
    hide Call, Callable, Direct, Quiet;
    if rs == [] {
      return [];
    }
    CallIsDirect(c.State(), rs[0]);
    var first := Execute(c, rs[0]);
    var others := ExecuteAll(c, rs[1..]);
    results := [first] + others;
  }

  /** A new server, a new connection and a new client, which talk to each other. */
  method Connect(be: Backend, slave: byte, nbBits: nat, nbInputBits: nat, nbRegisters: nat, nbInputRegisters: nat)
    returns (c: Client)
    ensures fresh(c) && c.Valid() && Quiet(c.State())
    ensures c.link.mapping.Contents() == NewTables(nbBits, nbInputBits, nbRegisters, nbInputRegisters)
  {
    var mapping := new Mapping.New(nbBits, nbInputBits, nbRegisters, nbInputRegisters);
    var link := new Link(be, slave, mapping);
    c := new Client(link, slave);
    assert mapping.Contents() == NewTables(nbBits, nbInputBits, nbRegisters, nbInputRegisters);
  }
}
