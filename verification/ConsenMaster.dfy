/** `ConsenCom::poll` as it runs: on shared memory, the buffer both ports share, and the servers of one line. */
module ConsenMaster {
  import opened Bytes
  import opened Protocol
  import opened ClientModel
  import opened EndToEnd
  import opened Runs
  import opened RtuBus
  import opened Consen
  import opened ConsenTasks

  class ConsenCom {
    /** Shared memory from `modbus_bool` on. */
    const area: array<byte>
    /** The `static` buffer of `poll`: it outlives the poll that filled it, and the other port uses it too. */
    const buf: array<byte>
    /** The slave id as it goes over the wire; the -1 of a new context is 255 there. */
    var slave: byte
    var bus: Bus

    constructor (area: array<byte>, buf: array<byte>, bus: Bus)
      requires BusValid(bus) && buf.Length == 256 && buf != area
      ensures this.area == area && this.buf == buf && this.bus == bus && Valid()
    {
      this.area, this.buf, this.bus, slave := area, buf, bus, 255;
    }

    ghost predicate Valid()
      reads this
    {
      buf.Length == 256 && buf != area && BusValid(bus)
    }

    ghost function State(): Image
      reads this, area, buf
    {
      Image(bus, area[..], buf[..])
    }

    /** One call to the current slave.  After a broadcast the answers may collide, and any bytes arrive. */
    method Call(r: Request) returns (result: Result<Outcome>)
      requires Valid()
      modifies this`bus
      ensures Valid() && bus == BusAfterWrite(old(bus), slave, r)
      ensures slave in old(bus) && slave != 0 ==> result == Direct(old(bus)[slave], r).1
      ensures slave !in old(bus) && slave != 0 ==> result.Err?
    {
      hide BusCall, BusCallable, BusValid, Direct, BusAfter, ClientResult, TooMany, RequestPdu, SameInputs;
      if slave != 0 {
        AnyBusCall(bus, slave, r);
        var (bus', out) := BusCall(bus, slave, r);
        bus, result := bus', out;
      } else if TooMany(r) {
        RefusedEverywhere(bus, r);
        result := Err(TooManyData);
      } else {
        var down: seq<byte> := *;
        BroadcastIsDirect(bus, r, down);
        RequestIsComplete(r);
        var frame := RequestFrame(Rtu, 0, slave, r);
        bus, result := BusAfter(bus, frame), ClientResult(Rtu, r, frame, down);
      }
    }

    /** `modbus_read_input_bits` into the buffer, which is then spliced into memory whether or not it failed. */
    method ReadInputBitsTask(t: Task)
      requires Valid() && slave == t.slaveId && t.ReadsBits() && t.Fits(area.Length)
      modifies this`bus, area, buf
      ensures Valid() && State() == AfterTask(old(State()), t)
    {
      hide BusValid, Spliced, Direct, RegionBit;
      ghost var before, bus0, memory := buf[..], bus, area[..];
      var result := Call(ReadInputBits(t.addr, t.dataNum));
      BitsOutcomeOf(bus0, t);
      if result.Ok? && result.value.BitValues? && |result.value.bits| == t.dataNum {
        forall i | 0 <= i < t.dataNum {
          buf[i] := result.value.bits[i];
        }
        assert buf[..] == result.value.bits + before[t.dataNum..];
      }
      assert area[..] == memory;
      AssembleIoStatus(t.offset, t.dataNum, buf, area);
      assert buf[..t.dataNum] == buf[..][..t.dataNum];
    }

    lemma BitsOutcomeOf(bus: Bus, t: Task)
      requires t.ReadsBits()
      ensures var r := ReadInputBits(t.addr, t.dataNum);
              && BusAfterWrite(bus, t.slaveId, r) == bus
              && (t.Served(bus) ==>
                    Direct(bus[t.slaveId], r).1 == Ok(BitValues(bus[t.slaveId].inputBits[t.addr..t.addr + t.dataNum])))
              && (!t.Served(bus) && t.slaveId in bus ==> Direct(bus[t.slaveId], r).1.Err?)
    {
      assert t.slaveId in bus ==> bus[t.slaveId := bus[t.slaveId]] == bus;
    }

    /** `modbus_read_input_registers` straight into memory. */
    method ReadInputRegistersTask(t: Task)
      requires Valid() && slave == t.slaveId && t.ReadsWords() && t.Fits(area.Length)
      modifies this`bus, area
      ensures Valid() && State() == AfterTask(old(State()), t)
    {
      hide BusValid, Direct;
      ghost var bus0, memory := bus, area[..];
      var result := Call(ReadInputRegisters(t.addr, t.dataNum));
      WordsOutcomeOf(bus0, t);
      if result.Ok? && result.value.WordValues? && |result.value.words| == t.dataNum {
        StoreWords(t.WordAddress(), result.value.words);
      }
    }

    lemma WordsOutcomeOf(bus: Bus, t: Task)
      requires t.ReadsWords()
      ensures var r := ReadInputRegisters(t.addr, t.dataNum);
              && BusAfterWrite(bus, t.slaveId, r) == bus
              && (t.Served(bus) ==>
                    Direct(bus[t.slaveId], r).1 ==
                    Ok(WordValues(bus[t.slaveId].inputRegisters[t.addr..t.addr + t.dataNum])))
              && (!t.Served(bus) && t.slaveId in bus ==> Direct(bus[t.slaveId], r).1.Err?)
    {
      assert t.slaveId in bus ==> bus[t.slaveId := bus[t.slaveId]] == bus;
    }

    /** Words stored by the little-endian host. */
    method StoreWords(at: nat, words: seq<word>)
      requires at + 2 * |words| <= area.Length
      modifies area
      ensures area[..] == Splice(old(area[..]), at, HostBytes(words))
    {
      ghost var memory := area[..];
      for i := 0 to |words|
        invariant forall p :: 0 <= p < area.Length ==>
                    area[p] == if at <= p < at + 2 * i then HostBytes(words)[p - at] else memory[p]
      {
        HostByteAt(words, i);
        area[at + 2 * i] := Lo(words[i]);
        area[at + 2 * i + 1] := Hi(words[i]);
      }
    }

    /** One turn of the loop of `poll`. */
    method PollTask(t: Task)
      requires Valid() && t.(slaveId := SetSlave(slave, t.slaveId)).Fits(area.Length)
      modifies this`bus, this`slave, area, buf
      ensures Valid() && slave == SetSlave(old(slave), t.slaveId)
      ensures State() == AfterTask(old(State()), t.(slaveId := slave))
    {
      hide BusValid, Direct, Spliced, BufAfter, HostBytes, Everywhere;
      if t.slaveId <= 247 {
        slave := t.slaveId;
      }
      var used := t.(slaveId := slave);
      if t.cmdId == FC_READ_DISCRETE_INPUTS {
        ReadInputBitsTask(used);
      } else if t.cmdId == FC_READ_INPUT_REGISTERS {
        ReadInputRegistersTask(used);
      } else if t.cmdId == FC_WRITE_MULTIPLE_COILS {
        var _ := Call(WriteBits(t.addr, area[t.offset..t.offset + t.dataNum]));
      } else if t.cmdId == FC_WRITE_MULTIPLE_REGISTERS {
        var words := LoadWords(t.WordAddress(), t.dataNum);
        var _ := Call(WriteRegisters(t.addr, words));
      }
    }

    /** The words a pointer into memory designates. */
    method LoadWords(at: nat, n: nat) returns (words: seq<word>)
      requires at + 2 * n <= area.Length
      ensures words == HostWords(area[..], at, n)
    {
      words := [];
      for i := 0 to n
        invariant words == HostWords(area[..], at, n)[..i]
      {
        words := words + [Word(area[at + 2 * i + 1], area[at + 2 * i])];
      }
    }

    /** `poll`: the servers, shared memory and the buffer are those after the round. */
    method Poll(tasks: seq<Task>)
      requires Valid() && AllFit(Resolved(slave, tasks), area.Length)
      modifies this`bus, this`slave, area, buf
      ensures Valid() && slave == CurrentSlave(old(slave), tasks)
      ensures AllFit(Resolved(old(slave), tasks), |old(State()).area|)
      ensures State() == AfterRound(old(State()), Resolved(old(slave), tasks))
    {
      hide BusValid, AfterTask, SetSlave;
      ghost var used := Resolved(slave, tasks);
      for i := 0 to |tasks|
        invariant Valid() && slave == CurrentSlave(old(slave), tasks[..i])
        invariant State() == AfterRound(old(State()), used[..i])
      {
        assert tasks[..i + 1][..i] == tasks[..i];
        assert used[..i + 1][..i] == used[..i] && used[i] in used;
        PollTask(tasks[i]);
      }
      assert tasks[..|tasks|] == tasks && used[..|tasks|] == used;
    }
  }
}
