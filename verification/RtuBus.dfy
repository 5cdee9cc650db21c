/** Several servers on one RTU line: a call reaches the server it addresses, and no other. */
module RtuBus {
  import opened Bytes
  import opened BitPacking
  import opened Crc
  import opened Protocol
  import opened Receiver
  import opened ServerModel
  import opened ClientModel
  import opened EndToEnd
  import opened Runs

  /** The tables of the servers on the line, by slave id. */
  type Bus = map<byte, Tables>

  predicate BusValid(bus: Bus) {
    forall id :: id in bus ==> ZeroOne(bus[id].bits) && ZeroOne(bus[id].inputBits)
  }

  /** Every server on the line can cope with the frame. */
  predicate BusServable(bus: Bus, frame: seq<byte>) {
    forall id :: id in bus ==> Servable(Rtu, bus[id], frame)
  }

  /** Every server reads the frame. */
  function BusAfter(bus: Bus, frame: seq<byte>): Bus
    requires BusServable(bus, frame)
  {
    map id | id in bus :: ServerTurn(Rtu, id, bus[id], frame).0
  }

  /** What the addressed server sends back; the line is silent if there is none. */
  function BusSends(bus: Bus, slave: byte, frame: seq<byte>): seq<byte>
    requires BusServable(bus, frame)
  {
    if slave in bus then ServerTurn(Rtu, slave, bus[slave], frame).2 else []
  }

  predicate BusCallable(bus: Bus, slave: byte, r: Request) {
    !TooMany(r) ==> BusServable(bus, RequestFrame(Rtu, 0, slave, r))
  }

  /** One client call to `slave` over the line. */
  function BusCall(bus: Bus, slave: byte, r: Request): (Bus, Result<Outcome>)
    requires BusCallable(bus, slave, r)
  {
    if TooMany(r) then (bus, Err(TooManyData))
    else
      var frame := RequestFrame(Rtu, 0, slave, r);
      FrameParts(Rtu, 0, slave, RequestPdu(r));
      (BusAfter(bus, frame), ClientResult(Rtu, r, frame, BusSends(bus, slave, frame)))
  }

  /** A server that is not addressed changes nothing and keeps silent. */
  lemma OthersIgnore(id: byte, t: Tables, slave: byte, r: Request)
    requires !TooMany(r) && id != slave && slave != 0
    ensures var frame := RequestFrame(Rtu, 0, slave, r);
            Servable(Rtu, t, frame) && ServerTurn(Rtu, id, t, frame) == (t, [], [])
  {
    hide Crc16, RequestPdu, Serve, DataPresent, Complete, CheckIntegrity;
    var frame := RequestFrame(Rtu, 0, slave, r);
    RequestIsComplete(r);
    RequestDataIsPresent(t, r);
    FrameParts(Rtu, 0, slave, RequestPdu(r));
    FrameIsReceived(Rtu, Indication, 0, slave, RequestPdu(r), []);
    assert frame + [] == frame;
  }

  lemma NothingReceived(r: Request, frame: seq<byte>)
    requires !TooMany(r) && 1 <= |frame|
    ensures ClientResult(Rtu, r, frame, []) == Err(NoAnswer)
  {
  }

  /** A call on the line is the direct operation on the addressed server's tables, and on no others. */
  lemma BusCallIsDirect(bus: Bus, slave: byte, r: Request)
    requires BusValid(bus) && slave != 0 && !TooMany(r)
    ensures BusCallable(bus, slave, r)
    ensures slave in bus ==>
              BusCall(bus, slave, r) == (bus[slave := Direct(bus[slave], r).0], Direct(bus[slave], r).1)
    ensures slave !in bus ==> BusCall(bus, slave, r) == (bus, Err(NoAnswer))
    ensures BusValid(BusCall(bus, slave, r).0)
  {
    hide Crc16, RequestPdu, ServerTurn, Servable, ClientResult, Direct, ZeroOne, Complete;
    var frame := RequestFrame(Rtu, 0, slave, r);
    RequestIsComplete(r);
    FrameParts(Rtu, 0, slave, RequestPdu(r));
    forall id | id in bus && id != slave
      ensures Servable(Rtu, bus[id], frame) && ServerTurn(Rtu, id, bus[id], frame) == (bus[id], [], [])
    {
      OthersIgnore(id, bus[id], slave, r);
    }
    if slave in bus {
      NotFiltered(slave);
      var rsp := ServerAnswers(Rtu, slave, bus[slave], 0, slave, r);
      ClientReads(Rtu, 0, slave, r, rsp);
      DirectKeepsZeroOne(bus[slave], r);
      assert BusAfter(bus, frame) == bus[slave := Direct(bus[slave], r).0];
    } else {
      NothingReceived(r, frame);
      assert BusAfter(bus, frame) == bus;
    }
  }

  lemma NotFiltered(slave: byte)
    ensures !Filtered(Rtu, slave, slave)
  {
  }

  // ----- broadcasts

  /** Every server has carried out `r`. */
  function Everywhere(bus: Bus, r: Request): Bus {
    map id | id in bus :: Direct(bus[id], r).0
  }

  lemma RefusedEverywhere(bus: Bus, r: Request)
    requires TooMany(r)
    ensures Everywhere(bus, r) == bus
  {
    hide Direct, TooMany;
    forall id | id in bus ensures Direct(bus[id], r).0 == bus[id] {
      RefusedDirect(bus[id], r);
    }
  }

  /** A server hears a broadcast, and answers it. */
  lemma BroadcastIsHeard(id: byte, t: Tables, r: Request)
    requires !TooMany(r) && ZeroOne(t.bits) && ZeroOne(t.inputBits)
    ensures var frame := RequestFrame(Rtu, 0, 0, r);
            && 1 <= |frame| && Servable(Rtu, t, frame)
            && var turn := ServerTurn(Rtu, id, t, frame);
               turn.0 == Direct(t, r).0 && turn.2 != [] && ClientResult(Rtu, r, frame, turn.2) == Direct(t, r).1
  {
    hide Crc16, RequestPdu, Direct, Complete, ClientResult, ServerTurn, Servable, Interpret, TooMany;
    var rsp := ServerAnswers(Rtu, id, t, 0, 0, r);
    ClientReads(Rtu, 0, 0, r, rsp);
    FrameParts(Rtu, 0, 0, rsp);
  }

  /** What may reach the client after a broadcast: the answer of a single server, while those of several collide. */
  predicate MayArrive(bus: Bus, frame: seq<byte>, down: seq<byte>)
    requires BusServable(bus, frame)
  {
    && (bus == map[] ==> down == [])
    && forall id :: id in bus && bus.Keys == {id} ==> down == ServerTurn(Rtu, id, bus[id], frame).2
  }

  /** A broadcast is the direct operation on every server, and a single server's result is what the client gets. */
  lemma BroadcastIsDirect(bus: Bus, r: Request, down: seq<byte>)
    requires BusValid(bus) && !TooMany(r)
    ensures var frame := RequestFrame(Rtu, 0, 0, r);
            && 1 <= |frame|
            && BusServable(bus, frame) && BusAfter(bus, frame) == Everywhere(bus, r)
            && (MayArrive(bus, frame, down) ==>
                  && (bus == map[] ==> ClientResult(Rtu, r, frame, down) == Err(NoAnswer))
                  && forall id :: id in bus && bus.Keys == {id} ==>
                       ClientResult(Rtu, r, frame, down) == Direct(bus[id], r).1)
    ensures BusValid(Everywhere(bus, r)) && SameInputs(bus, Everywhere(bus, r))
  {
    hide Crc16, RequestPdu, ServerTurn, Servable, ClientResult, Direct, ZeroOne, TooMany;
    var frame := RequestFrame(Rtu, 0, 0, r);
    RequestIsComplete(r);
    FrameParts(Rtu, 0, 0, RequestPdu(r));
    forall id | id in bus
      ensures Servable(Rtu, bus[id], frame) && ServerTurn(Rtu, id, bus[id], frame).0 == Direct(bus[id], r).0
      ensures ClientResult(Rtu, r, frame, ServerTurn(Rtu, id, bus[id], frame).2) == Direct(bus[id], r).1
    {
      BroadcastIsHeard(id, bus[id], r);
    }
    EverywhereKeeps(bus, r);
    NothingReceived(r, frame);
  }

  lemma EverywhereKeeps(bus: Bus, r: Request)
    requires BusValid(bus)
    ensures BusValid(Everywhere(bus, r)) && SameInputs(bus, Everywhere(bus, r))
  {
    hide Direct, ZeroOne;
    forall id | id in bus
      ensures ZeroOne(Direct(bus[id], r).0.bits) && ZeroOne(Direct(bus[id], r).0.inputBits)
      ensures Direct(bus[id], r).0.inputBits == bus[id].inputBits
      ensures Direct(bus[id], r).0.inputRegisters == bus[id].inputRegisters
    {
      DirectKeepsZeroOne(bus[id], r);
      DirectKeepsInputs(bus[id], r);
    }
  }

  /** The same servers, and the same inputs at each. */
  predicate SameInputs(bus: Bus, bus': Bus) {
    && bus'.Keys == bus.Keys
    && forall id :: id in bus ==>
         bus'[id].inputBits == bus[id].inputBits && bus'[id].inputRegisters == bus[id].inputRegisters
  }

  /** A call, allowed or not, to a server, there or not. */
  lemma AnyBusCall(bus: Bus, slave: byte, r: Request)
    requires BusValid(bus) && slave != 0
    ensures BusCallable(bus, slave, r) && BusValid(BusCall(bus, slave, r).0)
    ensures slave in bus ==>
              BusCall(bus, slave, r) == (bus[slave := Direct(bus[slave], r).0], Direct(bus[slave], r).1)
    ensures slave !in bus ==> BusCall(bus, slave, r).0 == bus && BusCall(bus, slave, r).1.Err?
    ensures SameInputs(bus, BusCall(bus, slave, r).0)
  {
    hide BusCallable, BusCall, BusValid, Direct, TooMany;
    if TooMany(r) {
      RefusedBusCall(bus, slave, r);
      if slave in bus {
        RefusedDirect(bus[slave], r);
        assert bus[slave := bus[slave]] == bus;
      }
    } else {
      BusCallIsDirect(bus, slave, r);
      if slave in bus {
        DirectKeepsInputs(bus[slave], r);
      }
    }
  }

  lemma RefusedBusCall(bus: Bus, slave: byte, r: Request)
    requires TooMany(r)
    ensures BusCallable(bus, slave, r) && BusCall(bus, slave, r) == (bus, Err(TooManyData))
  {
    hide RequestPdu, BusServable, BusAfter, BusSends, ClientResult, TooMany;
  }

  lemma RefusedDirect(t: Tables, r: Request)
    requires TooMany(r)
    ensures Direct(t, r) == (t, Err(TooManyData))
  {
    hide TooMany;
  }

  lemma DirectKeepsInputs(t: Tables, r: Request)
    ensures Direct(t, r).0.inputBits == t.inputBits && Direct(t, r).0.inputRegisters == t.inputRegisters
  {
    hide Splice, Normalized;
  }
}
