/**
 The polling round of the Consen master, on values: configured tasks move inputs of the servers on one RTU
 line into the Modbus part of shared memory, and values from there to the servers.
 */
module ConsenTasks {
  import opened Bytes
  import opened Bits
  import opened BitPacking
  import opened Protocol
  import opened ServerModel
  import opened ClientModel
  import opened EndToEnd
  import opened Runs
  import opened RtuBus
  import opened Consen

  /** Shared memory from `modbus_bool` on: 256 bytes, then `modbus_word`, then the rest. */
  const WORDS_AT := 256

  /** A line of the configuration; `offset` counts bits, words or bytes, as the command demands. */
  datatype Task = Task(slaveId: byte, cmdId: byte, addr: word, dataNum: byte, offset: word) {
    predicate ReadsBits() {
      cmdId == FC_READ_DISCRETE_INPUTS
    }

    predicate ReadsWords() {
      cmdId == FC_READ_INPUT_REGISTERS
    }

    predicate WritesServer() {
      cmdId == FC_WRITE_MULTIPLE_COILS || cmdId == FC_WRITE_MULTIPLE_REGISTERS
    }

    /** Where the bytes of word `offset` begin. */
    function WordAddress(): nat {
      WORDS_AT + 2 * offset
    }

    /** Memory of `n` bytes is large enough for the polling task, and it reads from a single server. */
    predicate Fits(n: nat) {
      && (slaveId == 0 ==> !ReadsBits() && !ReadsWords())
      && (ReadsBits() ==> (offset + dataNum) / 8 < n)
      && (cmdId == FC_WRITE_MULTIPLE_COILS ==> offset + dataNum <= n)
      && (ReadsWords() || cmdId == FC_WRITE_MULTIPLE_REGISTERS ==> WordAddress() + 2 * dataNum <= n)
    }

    /** The server is there and has the inputs that the polling task asks for. */
    predicate Served(bus: Bus) {
      && slaveId in bus && 0 < dataNum
      && (ReadsBits() ==> addr + dataNum <= |bus[slaveId].inputBits|)
      && (ReadsWords() ==> dataNum <= MAX_READ_REGISTERS && addr + dataNum <= |bus[slaveId].inputRegisters|)
    }

    /** The bits of memory that are written: the range of a bit task, and that of a word task that is served. */
    predicate OwnsBit(bus: Bus, q: nat) {
      || (ReadsBits() && offset <= q < offset + dataNum)
      || (ReadsWords() && Served(bus) && 8 * WordAddress() <= q < 8 * (WordAddress() + 2 * dataNum))
    }

    /** The bit of its server's inputs that belongs at bit `q`. */
    predicate InputBit(bus: Bus, q: nat)
      requires Served(bus) && OwnsBit(bus, q)
    {
      if ReadsBits() then bus[slaveId].inputBits[addr + q - offset] != 0
      else
        var p := q / 8 - WordAddress();
        BitOf(HostBytes(bus[slaveId].inputRegisters[addr..addr + dataNum])[p], q % 8)
    }
  }

  /** Words as they lie in the memory of the little-endian host. */
  function HostBytes(ws: seq<word>): (r: seq<byte>)
    ensures |r| == 2 * |ws|
  {
    seq(2 * |ws|, i requires 0 <= i < 2 * |ws| => if i % 2 == 0 then Lo(ws[i / 2]) else Hi(ws[i / 2]))
  }

  function HostWords(s: seq<byte>, at: nat, n: nat): (r: seq<word>)
    requires at + 2 * n <= |s|
    ensures |r| == n
  {
    seq(n, i requires 0 <= i < n => Word(s[at + 2 * i + 1], s[at + 2 * i]))
  }

  // ----- one task

  /** The servers, shared memory, and the `static` buffer of `poll`. */
  datatype Image = Image(bus: Bus, area: seq<byte>, buf: seq<byte>)

  predicate ImageValid(im: Image) {
    BusValid(im.bus) && |im.buf| == 256
  }

  function WriteRequest(t: Task, area: seq<byte>): Request
    requires t.Fits(|area|) && t.WritesServer()
  {
    if t.cmdId == FC_WRITE_MULTIPLE_COILS then WriteBits(t.addr, area[t.offset..t.offset + t.dataNum])
    else WriteRegisters(t.addr, HostWords(area, t.WordAddress(), t.dataNum))
  }

  /** The buffer after a read of discrete inputs: what was there stays when the call fails. */
  function BufAfter(im: Image, t: Task): seq<byte>
    requires ImageValid(im) && t.ReadsBits()
  {
    if t.Served(im.bus) then im.bus[t.slaveId].inputBits[t.addr..t.addr + t.dataNum] + im.buf[t.dataNum..] else im.buf
  }

  /** A write to id 0 is a broadcast. */
  function BusAfterWrite(bus: Bus, id: byte, r: Request): Bus {
    if id == 0 then Everywhere(bus, r)
    else if id in bus then bus[id := Direct(bus[id], r).0] else bus
  }

  function AfterTask(im: Image, t: Task): Image
    requires ImageValid(im) && t.Fits(|im.area|)
  {
    if t.ReadsBits() then
      var buf := BufAfter(im, t);
      im.(area := Spliced(im.area, t.offset, buf[..t.dataNum]), buf := buf)
    else if t.ReadsWords() then
      if t.Served(im.bus) then
        var words := im.bus[t.slaveId].inputRegisters[t.addr..t.addr + t.dataNum];
        im.(area := Splice(im.area, t.WordAddress(), HostBytes(words)))
      else im
    else if t.WritesServer() then
      im.(bus := BusAfterWrite(im.bus, t.slaveId, WriteRequest(t, im.area)))
    else im
  }

  lemma TaskKeeps(im: Image, t: Task)
    requires ImageValid(im) && t.Fits(|im.area|)
    ensures ImageValid(AfterTask(im, t)) && |AfterTask(im, t).area| == |im.area|
    ensures SameInputs(im.bus, AfterTask(im, t).bus)
  {
    hide BusCall, BusCallable, Direct, Spliced, HostBytes, ZeroOne, WriteRequest;
    if t.WritesServer() && t.slaveId == 0 {
      EverywhereKeeps(im.bus, WriteRequest(t, im.area));
    } else if t.WritesServer() && t.slaveId in im.bus {
      DirectKeepsInputs(im.bus[t.slaveId], WriteRequest(t, im.area));
      DirectKeepsZeroOne(im.bus[t.slaveId], WriteRequest(t, im.area));
    }
  }

  lemma StoredBit(area: seq<byte>, at: nat, data: seq<byte>, q: nat)
    requires at + |data| <= |area| && q < 8 * |area|
    ensures RegionBit(Splice(area, at, data), q) ==
            if 8 * at <= q < 8 * (at + |data|) then BitOf(data[q / 8 - at], q % 8) else RegionBit(area, q)
  {
    hide BitOf;
  }

  /**
   Every bit of memory after a task.  The own bits of a read that fails are those of the buffer, which are left
   from an earlier read.
   */
  lemma TaskBits(im: Image, t: Task, q: nat)
    requires ImageValid(im) && t.Fits(|im.area|) && q < 8 * |im.area|
    ensures |AfterTask(im, t).area| == |im.area|
    ensures RegionBit(AfterTask(im, t).area, q) ==
            if !t.OwnsBit(im.bus, q) then RegionBit(im.area, q)
            else if t.Served(im.bus) then t.InputBit(im.bus, q)
            else im.buf[q - t.offset] != 0
  {
    hide RegionBit, Spliced, Splice, HostBytes, Direct, WriteRequest, BusValid;
    if t.ReadsBits() {
      BitOfSpliced(im.area, t.offset, BufAfter(im, t)[..t.dataNum], q);
    } else if t.ReadsWords() && t.Served(im.bus) {
      var words := im.bus[t.slaveId].inputRegisters[t.addr..t.addr + t.dataNum];
      StoredBit(im.area, t.WordAddress(), HostBytes(words), q);
    }
  }

  /** A failed read leaves memory as it was exactly if the stale entries agree with the bits they overwrite. */
  lemma FailedReadHarmlessIff(im: Image, t: Task)
    requires ImageValid(im) && t.Fits(|im.area|) && t.ReadsBits() && !t.Served(im.bus)
    ensures AfterTask(im, t).area == im.area <==>
            forall q: nat :: t.OwnsBit(im.bus, q) ==> RegionBit(im.area, q) == (im.buf[q - t.offset] != 0)
  {
    hide RegionBit, AfterTask, BusValid;
    var area' := AfterTask(im, t).area;
    if area' == im.area {
      forall q: nat | t.OwnsBit(im.bus, q)
        ensures RegionBit(im.area, q) == (im.buf[q - t.offset] != 0)
      {
        TaskBits(im, t, q);
      }
    }
    if forall q: nat :: t.OwnsBit(im.bus, q) ==> RegionBit(im.area, q) == (im.buf[q - t.offset] != 0) {
      TaskBits(im, t, 0);
      forall q | 0 <= q < 8 * |im.area|
        ensures RegionBit(area', q) == RegionBit(im.area, q)
      {
        TaskBits(im, t, q);
      }
      SameRegion(area', im.area);
    }
  }

  // ----- a round

  predicate AllFit(tasks: seq<Task>, n: nat) {
    forall t :: t in tasks ==> t.Fits(n)
  }

  function AfterRound(im: Image, tasks: seq<Task>): (r: Image)
    requires ImageValid(im) && AllFit(tasks, |im.area|)
    ensures ImageValid(r) && |r.area| == |im.area| && SameInputs(im.bus, r.bus)
    decreases |tasks|
  {
    if tasks == [] then im
    else
      var before, t := AfterRound(im, tasks[..|tasks| - 1]), tasks[|tasks| - 1];
      TaskKeeps(before, t);
      AfterTask(before, t)
  }

  /**
   From a buffer of zeros: the input of server 1, which is set, is read to bit 0; the next task is to read an input of
   a server that is not there to bit 8, and sets it.
   */
  lemma FailedReadCorrupts(area: seq<byte>)
    requires 2 <= |area| && area[1] == 0
    ensures var im := Image(map[1 := Tables([], [1], [], [])], area, Repeated(256, 0));
            var tasks := [Task(1, FC_READ_DISCRETE_INPUTS, 0, 1, 0), Task(2, FC_READ_DISCRETE_INPUTS, 0, 1, 8)];
            && ImageValid(im) && AllFit(tasks, |area|) && !tasks[1].Served(im.bus)
            && !RegionBit(area, 8) && RegionBit(AfterRound(im, tasks).area, 8)
  {
    hide RegionBit, Spliced;
    var first, second := Task(1, FC_READ_DISCRETE_INPUTS, 0, 1, 0), Task(2, FC_READ_DISCRETE_INPUTS, 0, 1, 8);
    var im := Image(map[1 := Tables([], [1], [], [])], area, Repeated(256, 0));
    var before, tasks := AfterTask(im, first), [first, second];
    assert ZeroOne(im.bus[1].inputBits);
    assert tasks[..1] == [first] && [first][..0] == [];
    assert AfterRound(im, [first]) == before && before.buf[0] == 1;
    TaskKeeps(im, first);
    TaskBits(before, second, 8);
    ClearByte(area, 8);
  }

  lemma ClearByte(area: seq<byte>, q: nat)
    requires q < 8 * |area| && area[q / 8] == 0
    ensures !RegionBit(area, q)
  {
    ZeroHasNoBits(q % 8);
  }

  // ----- slave ids

  /** `modbus_set_slave` refuses ids above 247 and keeps the one before. */
  function SetSlave(current: byte, id: byte): byte {
    if id <= 247 then id else current
  }

  /** The slave id after the tasks. */
  function CurrentSlave(slave: byte, tasks: seq<Task>): byte {
    if tasks == [] then slave
    else SetSlave(CurrentSlave(slave, tasks[..|tasks| - 1]), tasks[|tasks| - 1].slaveId)
  }

  /** The tasks with the ids that are used for them. */
  function Resolved(slave: byte, tasks: seq<Task>): (r: seq<Task>)
    ensures |r| == |tasks|
  {
    seq(|tasks|, i requires 0 <= i < |tasks| => tasks[i].(slaveId := CurrentSlave(slave, tasks[..i + 1])))
  }

  /** The id used for a task is that of the last task up to it with an id that is not refused. */
  lemma {:induction false} LastAcceptedId(slave: byte, tasks: seq<Task>, k: nat, i: nat)
    requires k <= i < |tasks| && tasks[k].slaveId <= 247
    requires forall j :: k < j <= i ==> 247 < tasks[j].slaveId
    ensures Resolved(slave, tasks)[i] == tasks[i].(slaveId := tasks[k].slaveId)
    decreases i
  {
    assert tasks[..i + 1][..i] == tasks[..i];
    if k < i {
      LastAcceptedId(slave, tasks, k, i - 1);
    }
  }

  /** Inputs decide who is served, and what is owned and shown. */
  lemma SameServed(bus: Bus, bus': Bus, t: Task, q: nat)
    requires SameInputs(bus, bus')
    ensures t.Served(bus') == t.Served(bus) && t.OwnsBit(bus', q) == t.OwnsBit(bus, q)
    ensures t.Served(bus) && t.OwnsBit(bus, q) ==> t.InputBit(bus', q) == t.InputBit(bus, q)
  {
    hide HostBytes, BitOf;
  }

  /** No task from number `k` on owns bit `q`. */
  predicate BitFree(tasks: seq<Task>, bus: Bus, k: nat, q: nat) {
    forall i :: k <= i < |tasks| ==> !tasks[i].OwnsBit(bus, q)
  }

  /** Bits no task owns are as before the round. */
  lemma {:induction false} RoundKeepsFreeBits(im: Image, tasks: seq<Task>, q: nat)
    requires ImageValid(im) && AllFit(tasks, |im.area|) && q < 8 * |im.area|
    requires BitFree(tasks, im.bus, 0, q)
    ensures RegionBit(AfterRound(im, tasks).area, q) == RegionBit(im.area, q)
    decreases |tasks|
  {
    hide RegionBit, AfterTask, BusValid;
    if tasks != [] {
      var n := |tasks| - 1;
      RoundKeepsFreeBits(im, tasks[..n], q);
      var before := AfterRound(im, tasks[..n]);
      SameServed(im.bus, before.bus, tasks[n], q);
      TaskBits(before, tasks[n], q);
    }
  }

  /** A served task that no later task overwrites shows its server's inputs after the round. */
  lemma {:induction false} RoundShows(im: Image, tasks: seq<Task>, k: nat, q: nat)
    requires ImageValid(im) && AllFit(tasks, |im.area|) && q < 8 * |im.area|
    requires k < |tasks| && tasks[k].Served(im.bus) && tasks[k].OwnsBit(im.bus, q)
    requires BitFree(tasks, im.bus, k + 1, q)
    ensures RegionBit(AfterRound(im, tasks).area, q) == tasks[k].InputBit(im.bus, q)
    decreases |tasks|
  {
    hide RegionBit, AfterTask, BusValid;
    var n := |tasks| - 1;
    var before := AfterRound(im, tasks[..n]);
    SameServed(im.bus, before.bus, tasks[n], q);
    TaskBits(before, tasks[n], q);
    if k < n {
      RoundShows(im, tasks[..n], k, q);
    }
  }

  // ----- words

  lemma HostByteAt(ws: seq<word>, i: nat)
    requires i < |ws|
    ensures HostBytes(ws)[2 * i] == Lo(ws[i]) && HostBytes(ws)[2 * i + 1] == Hi(ws[i])
  {
    assert (2 * i) / 2 == i && (2 * i + 1) / 2 == i;
  }

  /** No task from number `k` on owns a bit of byte `at`. */
  predicate ByteFree(tasks: seq<Task>, bus: Bus, k: nat, at: nat) {
    forall q :: 8 * at <= q < 8 * at + 8 ==> BitFree(tasks, bus, k, q)
  }

  /** Byte `p` of what a served word task writes. */
  function WordByte(t: Task, bus: Bus, p: nat): byte
    requires t.ReadsWords() && t.Served(bus) && p < 2 * t.dataNum
  {
    HostBytes(bus[t.slaveId].inputRegisters[t.addr..t.addr + t.dataNum])[p]
  }

  lemma WordInputBit(t: Task, bus: Bus, p: nat, j: nat, q: nat)
    requires t.ReadsWords() && t.Served(bus) && p < 2 * t.dataNum && j < 8
    requires q == 8 * (t.WordAddress() + p) + j
    ensures t.OwnsBit(bus, q) && t.InputBit(bus, q) == BitOf(WordByte(t, bus, p), j)
  {
    hide BitOf, HostBytes;
    assert q / 8 == t.WordAddress() + p && q % 8 == j;
  }

  lemma RoundShowsByte(im: Image, tasks: seq<Task>, k: nat, p: nat)
    requires ImageValid(im) && AllFit(tasks, |im.area|)
    requires k < |tasks| && tasks[k].ReadsWords() && tasks[k].Served(im.bus) && p < 2 * tasks[k].dataNum
    requires ByteFree(tasks, im.bus, k + 1, tasks[k].WordAddress() + p)
    ensures var at := tasks[k].WordAddress() + p;
            at < |im.area| && AfterRound(im, tasks).area[at] == WordByte(tasks[k], im.bus, p)
  {
    hide AfterRound, BitFree, WordByte, BitOf, BusValid;
    var t := tasks[k];
    assert t in tasks;
    var at := t.WordAddress() + p;
    var b, area := WordByte(t, im.bus, p), AfterRound(im, tasks).area;
    hide AllFit, ImageValid;
    forall j | 0 <= j < 8
      ensures BitOf(area[at], j) == BitOf(b, j)
    {
      var q := 8 * at + j;
      WordInputBit(t, im.bus, p, j, q);
      RoundShows(im, tasks, k, q);
      BitInByte(area, at, j, q);
    }
    SameByte(area[at], b);
  }

  lemma BitInByte(area: seq<byte>, at: nat, j: nat, q: nat)
    requires at < |area| && j < 8 && q == 8 * at + j
    ensures q < 8 * |area| && RegionBit(area, q) == BitOf(area[at], j)
  {
    assert q / 8 == at && q % 8 == j;
  }

  lemma WordOfBytes(t: Task, bus: Bus, i: nat)
    requires t.ReadsWords() && t.Served(bus) && i < t.dataNum
    ensures Word(WordByte(t, bus, 2 * i + 1), WordByte(t, bus, 2 * i)) == bus[t.slaveId].inputRegisters[t.addr + i]
  {
    hide HostBytes;
    var ws := bus[t.slaveId].inputRegisters[t.addr..t.addr + t.dataNum];
    HostByteAt(ws, i);
    WordOfHiLo(ws[i]);
  }

  /** Word `i` of a word task shows its register when none of its sixteen bits is overwritten. */
  lemma RoundShowsWord(im: Image, tasks: seq<Task>, k: nat, i: nat)
    requires ImageValid(im) && AllFit(tasks, |im.area|)
    requires k < |tasks| && tasks[k].ReadsWords() && tasks[k].Served(im.bus) && i < tasks[k].dataNum
    requires ByteFree(tasks, im.bus, k + 1, tasks[k].WordAddress() + 2 * i)
    requires ByteFree(tasks, im.bus, k + 1, tasks[k].WordAddress() + 2 * i + 1)
    ensures var t := tasks[k]; var at := t.WordAddress() + 2 * i;
            && at + 1 < |im.area|
            && var area := AfterRound(im, tasks).area;
               Word(area[at + 1], area[at]) == im.bus[t.slaveId].inputRegisters[t.addr + i]
  {
    hide AfterRound, ByteFree, WordByte, AllFit, BusValid, ImageValid;
    WordOfBytes(tasks[k], im.bus, i);
    RoundShowsByte(im, tasks, k, 2 * i);
    RoundShowsByte(im, tasks, k, 2 * i + 1);
  }

  // ----- the servers after a round

  /** The requests a round makes to server `id`, broadcasts among them, each with the values in memory at its time. */
  function Requests(im: Image, tasks: seq<Task>, id: byte): seq<Request>
    requires ImageValid(im) && AllFit(tasks, |im.area|)
    decreases |tasks|
  {
    if tasks == [] then []
    else
      var n := |tasks| - 1;
      var rs, t := Requests(im, tasks[..n], id), tasks[n];
      if !t.WritesServer() || (t.slaveId != id && t.slaveId != 0) then rs
      else rs + [WriteRequest(t, AfterRound(im, tasks[..n]).area)]
  }

  lemma {:induction false} DirectRunOfMore(t: Tables, rs: seq<Request>, r: Request)
    ensures DirectRun(t, rs + [r]).0 == Direct(DirectRun(t, rs).0, r).0
    decreases |rs|
  {
    hide Direct;
    if rs == [] {
      assert DirectRun(Direct(t, r).0, []).0 == Direct(t, r).0;
      assert [] + [r] == [r];
    } else {
      assert (rs + [r])[1..] == rs[1..] + [r];
      DirectRunOfMore(Direct(t, rs[0]).0, rs[1..], r);
    }
  }

  /** The tables of every server after a round are those of the direct run of the requests made to it. */
  lemma {:induction false} RoundIsDirect(im: Image, tasks: seq<Task>, id: byte)
    requires ImageValid(im) && AllFit(tasks, |im.area|) && id in im.bus
    ensures id in AfterRound(im, tasks).bus
    ensures AfterRound(im, tasks).bus[id] == DirectRun(im.bus[id], Requests(im, tasks, id)).0
    decreases |tasks|
  {
    hide Direct, Spliced, Splice, WriteRequest, BusValid, HostBytes;
    if tasks != [] {
      var n := |tasks| - 1;
      RoundIsDirect(im, tasks[..n], id);
      var t := tasks[n];
      if t.WritesServer() && (t.slaveId == id || t.slaveId == 0) {
        DirectRunOfMore(im.bus[id], Requests(im, tasks[..n], id), WriteRequest(t, AfterRound(im, tasks[..n]).area));
      }
    }
  }
}
