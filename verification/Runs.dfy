/**
 Runs of client calls against one server over one connection, and their refinement of direct operations on
 four arrays; what a client may conclude from arbitrary bytes.
 */
module Runs {
  import opened Bytes
  import opened BitPacking
  import opened Crc
  import opened Protocol
  import opened Receiver
  import opened ServerModel
  import opened ClientModel
  import opened EndToEnd

  /**
   A client and a server, the tables, and the bytes on their way in each direction.  When the server is not
   online it reads and writes nothing, and the client has to do with whatever is on the stream.
   */
  datatype World = World(be: Backend, tid: word, clientSlave: byte, serverSlave: byte, online: bool,
                         tables: Tables, up: seq<byte>, down: seq<byte>)

  /** The static counter of `_modbus_tcp_build_request_basis`. */
  function NextTid(tid: word): word {
    if tid < 0xFFFF then tid + 1 else 0
  }

  function TidFor(be: Backend, tid: word): word {
    if be.Tcp? then NextTid(tid) else tid
  }

  function RequestFrame(be: Backend, tid: word, slave: byte, r: Request): seq<byte>
    requires !TooMany(r)
  {
    RequestIsComplete(r);
    Frame(be, tid, slave, RequestPdu(r))
  }

  // ----- the server's turn

  /** The next request on the stream, if it is one, brings the data it announces. */
  predicate Servable(be: Backend, t: Tables, up: seq<byte>) {
    var r := Receive(be, Indication, up);
    r.result.Ok? ==> IsRequest(be, t, r.result.value)
  }

  /** `modbus_receive` and `modbus_reply`: the new tables, what is left on the stream, what is sent. */
  function ServerTurn(be: Backend, serverSlave: byte, t: Tables, up: seq<byte>): (Tables, seq<byte>, seq<byte>)
    requires Servable(be, t, up)
  {
    var r := Receive(be, Indication, up);
    var rest := up[r.taken..];
    match r.result
    case Err(_) => (t, rest, [])
    case Ok(req) =>
      var (t', sent) := Reply(be, serverSlave, t, req);
      (t', rest, sent)
  }

  // ----- one call

  /** What the client makes of the bytes `down` after sending the request frame `req`. */
  function ClientResult(be: Backend, r: Request, req: seq<byte>, down: seq<byte>): Result<Outcome>
    requires !TooMany(r) && be.HeaderLength() <= |req|
  {
    var rec := Receive(be, Confirmation, down);
    match rec.result
    case Err(e) => Err(e)
    case Ok(rsp) =>
      ReceivedIsComplete(be, Confirmation, down);
      if be.Tcp? && (req[0] != rsp[0] || req[1] != rsp[1]) then Err(BadData)
      else Interpret(r, PduOf(be, rsp))
  }

  /** The world once the request `r` is built, with the transaction id it carries. */
  function Numbered(w: World): World {
    w.(tid := TidFor(w.be, w.tid))
  }

  /** The request `r`, sent with the id in `w`, is one the server can carry out. */
  predicate Sendable(w: World, r: Request)
    requires !TooMany(r)
  {
    w.online ==> Servable(w.be, w.tables, w.up + RequestFrame(w.be, w.tid, w.clientSlave, r))
  }

  predicate Callable(w: World, r: Request) {
    !TooMany(r) ==> Sendable(Numbered(w), r)
  }

  /** `send_msg`, and what the server then does. */
  function Sent(w: World, r: Request): World
    requires !TooMany(r) && Sendable(w, r)
  {
    var up := w.up + RequestFrame(w.be, w.tid, w.clientSlave, r);
    if w.online then
      var (t', up', sent) := ServerTurn(w.be, w.serverSlave, w.tables, up);
      w.(tables := t', up := up', down := w.down + sent)
    else
      w.(up := up)
  }

  /** The world after `receive_msg`. */
  function Received(w: World): World {
    w.(down := w.down[Receive(w.be, Confirmation, w.down).taken..])
  }

  function Call(w: World, r: Request): (World, Result<Outcome>)
    requires Callable(w, r)
  {
    if TooMany(r) then (w, Err(TooManyData))
    else
      var s := Sent(Numbered(w), r);
      var req := RequestFrame(s.be, s.tid, s.clientSlave, r);
      FrameParts(s.be, s.tid, s.clientSlave, RequestPdu(r));
      (Received(s), ClientResult(s.be, r, req, s.down))
  }

  /** Nothing is under way, bit tables hold zeros and ones, and the server listens to this client. */
  predicate Quiet(w: World) {
    && w.online && w.up == [] && w.down == []
    && ZeroOne(w.tables.bits) && ZeroOne(w.tables.inputBits)
    && !Filtered(w.be, w.serverSlave, w.clientSlave)
  }

  lemma SpliceKeepsZeroOne(table: seq<byte>, at: nat, t: seq<byte>)
    requires at + |t| <= |table| && ZeroOne(table) && ZeroOne(t)
    ensures ZeroOne(Splice(table, at, t))
  {
  }

  lemma DirectKeepsZeroOne(t: Tables, r: Request)
    requires ZeroOne(t.bits)
    ensures ZeroOne(Direct(t, r).0.bits) && Direct(t, r).0.inputBits == t.inputBits
    ensures Direct(t, r).0.inputRegisters == t.inputRegisters
  {
    if r.WriteBits? && r.addr + |r.bits| <= |t.bits| {
      SpliceKeepsZeroOne(t.bits, r.addr, Normalized(r.bits));
    }
  }

  /** The server's turn on exactly one request of a client: the response PDU `rsp`, framed. */
  lemma ServerAnswers(be: Backend, serverSlave: byte, t: Tables, tid: word, slave: byte, r: Request)
    returns (rsp: seq<byte>)
    requires !TooMany(r) && ZeroOne(t.bits) && ZeroOne(t.inputBits)
    requires !Filtered(be, serverSlave, slave)
    ensures 2 <= |rsp| <= 252 && Complete(Confirmation, rsp)
    ensures var req := RequestFrame(be, tid, slave, r);
            && Servable(be, t, req)
            && ServerTurn(be, serverSlave, t, req) == (Direct(t, r).0, [], Frame(be, tid, slave, rsp))
    ensures Interpret(r, rsp) == Direct(t, r).1
  {
    hide Crc16, RequestPdu, Serve, Direct, Interpret, DataPresent;
    var pdu := RequestPdu(r);
    RequestIsComplete(r);
    RequestDataIsPresent(t, r);
    RequestFields(r);
    ExchangeAgrees(t, r);
    var req := RequestFrame(be, tid, slave, r);
    FrameParts(be, tid, slave, pdu);
    FrameIsReceived(be, Indication, tid, slave, pdu, []);
    assert req + [] == req;
    var (t', answer) := Serve(t, pdu);
    AnswersWithData(t, pdu);
    ReplyIsFramed(be, tid, slave, pdu, answer, req);
    rsp := ResponsePdu(FunctionOf(r), answer);
  }

  /** The client's half: a framed response to its own request is read as its PDU says. */
  lemma ClientReads(be: Backend, tid: word, slave: byte, r: Request, rsp: seq<byte>)
    requires !TooMany(r) && 2 <= |rsp| <= 252 && Complete(Confirmation, rsp)
    ensures var req, f := RequestFrame(be, tid, slave, r), Frame(be, tid, slave, rsp);
            && be.HeaderLength() <= |req|
            && Receive(be, Confirmation, f).taken == |f|
            && ClientResult(be, r, req, f) == Interpret(r, rsp)
  {
    hide Crc16, RequestPdu, Interpret, Complete, CheckIntegrity;
    RequestIsComplete(r);
    FrameParts(be, tid, slave, RequestPdu(r));
    FrameParts(be, tid, slave, rsp);
    var f := Frame(be, tid, slave, rsp);
    FrameIsReceived(be, Confirmation, tid, slave, rsp, []);
    assert f + [] == f;
  }

  /** One call over a quiet connection is the direct operation, and leaves the connection quiet. */
  lemma CallIsDirect(w: World, r: Request)
    requires Quiet(w)
    ensures Callable(w, r)
    ensures var (w', result) := Call(w, r); var (t', expected) := Direct(w.tables, r);
            && result == expected && w'.tables == t'
            && w' == w.(tid := w'.tid, tables := t')
            && Quiet(w')
  {
    DirectKeepsZeroOne(w.tables, r);
    if !TooMany(r) {
      CallExchanges(w, r);
    }
  }

  lemma CallExchanges(w: World, r: Request)
    requires Quiet(w) && !TooMany(r)
    ensures Callable(w, r)
    ensures Call(w, r).0 == w.(tid := TidFor(w.be, w.tid), tables := Direct(w.tables, r).0)
    ensures Call(w, r).1 == Direct(w.tables, r).1
  {
    hide Crc16, RequestPdu, Direct, Interpret, ServerTurn, ClientResult, Receive, Servable, ZeroOne, Filtered;
    var tid := TidFor(w.be, w.tid);
    var req := RequestFrame(w.be, tid, w.clientSlave, r);
    assert w.up + req == req;
    var rsp := ServerAnswers(w.be, w.serverSlave, w.tables, tid, w.clientSlave, r);
    var f := Frame(w.be, tid, w.clientSlave, rsp);
    assert w.down + f == f;
    ClientReads(w.be, tid, w.clientSlave, r, rsp);
    assert f[|f|..] == [];
  }

  // ----- runs of calls

  function DirectRun(t: Tables, rs: seq<Request>): (Tables, seq<Result<Outcome>>)
    decreases |rs|
  {
    if rs == [] then (t, [])
    else
      var (t1, first) := Direct(t, rs[0]);
      var (t2, others) := DirectRun(t1, rs[1..]);
      (t2, [first] + others)
  }

  predicate RunCallable(w: World, rs: seq<Request>)
    decreases |rs|
  {
    rs == [] || (Callable(w, rs[0]) && RunCallable(Call(w, rs[0]).0, rs[1..]))
  }

  function Run(w: World, rs: seq<Request>): (World, seq<Result<Outcome>>)
    requires RunCallable(w, rs)
    decreases |rs|
  {
    if rs == [] then (w, [])
    else
      var (w1, first) := Call(w, rs[0]);
      var (w2, others) := Run(w1, rs[1..]);
      (w2, [first] + others)
  }

  /** Every run of calls over the protocol delivers the results, and leaves the tables, of a direct run. */
  lemma {:induction false} RunIsDirect(w: World, rs: seq<Request>)
    requires Quiet(w)
    ensures RunCallable(w, rs)
    ensures Run(w, rs).1 == DirectRun(w.tables, rs).1
    ensures Run(w, rs).0.tables == DirectRun(w.tables, rs).0
    ensures Quiet(Run(w, rs).0)
    decreases |rs|
  {
    hide Call, Direct, Quiet, Callable;
    if rs != [] {
      CallIsDirect(w, rs[0]);
      RunIsDirect(Call(w, rs[0]).0, rs[1..]);
    }
  }

  // ----- a client facing arbitrary bytes

  /**
   Whatever bytes arrive: a call that succeeds took a whole message of the right function from the stream,
   and a read delivers exactly the values asked for, decoded from the data bytes of that message.
   */
  lemma ClientIsSound(be: Backend, r: Request, req: seq<byte>, down: seq<byte>)
    requires !TooMany(r) && be.HeaderLength() <= |req|
    requires ClientResult(be, r, req, down).Ok?
    ensures Receive(be, Confirmation, down).result.Ok?
    ensures var rsp := Receive(be, Confirmation, down).result.value;
            && rsp == down[..|rsp|] && |rsp| <= be.MaxAduLength()
            && CheckIntegrity(be, rsp)
            && be.HeaderLength() + be.ChecksumLength() < |rsp|
            && (be.Tcp? ==> req[..2] == rsp[..2])
            && var pdu, out := PduOf(be, rsp), ClientResult(be, r, req, down).value;
               && 2 <= |pdu| && pdu[0] == FunctionOf(r)
               && (r.ReadBits? || r.ReadInputBits? ==>
                     |pdu| == 2 + ByteCount(r.nb) && out == BitValues(Unpack(pdu[2..], r.nb)))
               && (ReadsRegisters(r) || r.WriteAndReadRegisters? ==>
                     |pdu| == 2 + 2 * QuantityOf(r) && out == WordValues(WordsOf(pdu[2..], QuantityOf(r))))
               && (Writes(r) ==> out == Written(WriteCount(r)))
  {
    hide Crc16, CheckIntegrity, CheckPdu, Receive, RequestPdu, ByteCount, WordsOf, Unpack, DataLength;
    ReceivedIsComplete(be, Confirmation, down);
    TakenIsPrefix(be, down);
    var rsp := Receive(be, Confirmation, down).result.value;
    AcceptedRead(r, PduOf(be, rsp));
    RequestFields(r);
  }

  lemma TakenIsPrefix(be: Backend, s: seq<byte>)
    requires Receive(be, Confirmation, s).result.Ok?
    ensures var rsp := Receive(be, Confirmation, s).result.value; |rsp| <= |s| && rsp == s[..|rsp|]
  {
  }
}
