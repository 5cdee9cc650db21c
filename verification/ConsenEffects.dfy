/**
 What a task of the Consen master does to memory and to the servers, in numbers, and what a server holds after a round.
 */
module ConsenEffects {
  import opened Bytes
  import opened ServerModel
  import opened ClientModel
  import opened EndToEnd
  import opened RtuBus
  import opened Consen
  import opened ConsenTasks
  import opened WireFormat

  // ----- what a write task sends

  /** Where word `i` of a task lies in memory, behind the 256 bytes of bits. */
  function WordPosition(t: Task, i: nat): nat {
    256 + 2 * (t.offset + i)
  }

  /** The word at a byte address, low byte first. */
  function MemoryWord(area: seq<byte>, at: nat): word
    requires at + 1 < |area|
  {
    area[at] as int + 256 * area[at + 1] as int
  }

  /** Registers are written with the words of memory, coils with its bytes. */
  lemma WriteRequestInNumbers(t: Task, area: seq<byte>)
    requires t.Fits(|area|)
    ensures t.cmdId == 15 || t.cmdId == 16 <==> t.WritesServer()
    ensures t.cmdId == 15 ==>
              var r := WriteRequest(t, area);
              && r.WriteBits? && r.addr == t.addr && |r.bits| == t.dataNum
              && forall i :: 0 <= i < t.dataNum ==> r.bits[i] == area[t.offset + i]
    ensures t.cmdId == 16 ==>
              var r := WriteRequest(t, area);
              && r.WriteRegisters? && r.addr == t.addr && |r.values| == t.dataNum
              && forall i :: 0 <= i < t.dataNum ==> r.values[i] == MemoryWord(area, WordPosition(t, i))
  {
  }

  // ----- the memory after a task

  /** Bit `q` of memory. */
  function MemoryBit(area: seq<byte>, q: nat): nat
    requires q < 8 * |area|
  {
    Bit(area[q / 8], q % 8)
  }

  lemma MemoryBitIsRegionBit(area: seq<byte>, q: nat)
    requires q < 8 * |area|
    ensures MemoryBit(area, q) == 1 <==> RegionBit(area, q)
  {
    BitIsBitOf(area[q / 8], q % 8);
  }

  /** Function 2: inputs go to bits of memory; if they cannot be read, what the buffer holds does. */
  lemma InputBitsTask(im: Image, t: Task, q: nat)
    requires ImageValid(im) && t.Fits(|im.area|) && t.cmdId == 2 && q < 8 * |im.area|
    ensures var im' := AfterTask(im, t);
            var served := t.slaveId in im.bus && 0 < t.dataNum && t.addr + t.dataNum <= |im.bus[t.slaveId].inputBits|;
            && im'.bus == im.bus && |im'.area| == |im.area| && |im'.buf| == 256
            && (forall i :: 0 <= i < 256 ==>
                  im'.buf[i] == if served && i < t.dataNum then im.bus[t.slaveId].inputBits[t.addr + i] else im.buf[i])
            && MemoryBit(im'.area, q) ==
               if t.offset <= q < t.offset + t.dataNum then (if im'.buf[q - t.offset] != 0 then 1 else 0)
               else MemoryBit(im.area, q)
  {
    hide RegionBit, Spliced, BusValid, MemoryBit;
    var im' := AfterTask(im, t);
    MemoryBitIsRegionBit(im.area, q);
    MemoryBitIsRegionBit(im'.area, q);
    BitOfSpliced(im.area, t.offset, im'.buf[..t.dataNum], q);
    BitsAreBits(im.area, im'.area, q);
  }

  lemma BitsAreBits(area: seq<byte>, area': seq<byte>, q: nat)
    requires q < 8 * |area| && q < 8 * |area'|
    ensures MemoryBit(area, q) <= 1 && MemoryBit(area', q) <= 1
  {
  }

  /** Function 4: input registers go to words of memory, low byte first, if they can be read. */
  lemma InputRegistersTask(im: Image, t: Task, p: nat)
    requires ImageValid(im) && t.Fits(|im.area|) && t.cmdId == 4 && p < |im.area|
    ensures var im' := AfterTask(im, t);
            var served := t.slaveId in im.bus && 0 < t.dataNum <= 125 &&
                          t.addr + t.dataNum <= |im.bus[t.slaveId].inputRegisters|;
            && im'.bus == im.bus && |im'.area| == |im.area| && im'.buf == im.buf
            && im'.area[p] ==
               if served && WordPosition(t, 0) <= p < WordPosition(t, t.dataNum) then
                 var w := im.bus[t.slaveId].inputRegisters[t.addr + (p - WordPosition(t, 0)) / 2];
                 if p % 2 == 0 then w % 256 else w / 256
               else im.area[p]
  {
    hide BusValid;
  }

  // ----- the servers after a task

  /** The task writes register `p` of server `id`, to which `n` registers belong. */
  predicate WritesRegister(t: Task, id: byte, n: nat, p: nat) {
    && t.cmdId == 16 && (t.slaveId == id || t.slaveId == 0)
    && t.dataNum <= 123 && t.addr + t.dataNum <= n && t.addr <= p < t.addr + t.dataNum
  }

  /** The task writes coil `p` of server `id`, to which `n` coils belong. */
  predicate WritesCoil(t: Task, id: byte, n: nat, p: nat) {
    && t.cmdId == 15 && (t.slaveId == id || t.slaveId == 0)
    && t.addr + t.dataNum <= n && t.addr <= p < t.addr + t.dataNum
  }

  /** Every register of every server after a task. */
  lemma RegisterAfterTask(im: Image, t: Task, id: byte, p: nat)
    requires ImageValid(im) && t.Fits(|im.area|) && id in im.bus && p < |im.bus[id].registers|
    ensures id in AfterTask(im, t).bus
    ensures var table, table' := im.bus[id].registers, AfterTask(im, t).bus[id].registers;
            && |table'| == |table|
            && table'[p] == if WritesRegister(t, id, |table|, p)
                            then MemoryWord(im.area, WordPosition(t, p - t.addr)) else table[p]
  {
    hide BusValid, Spliced, HostBytes;
    WriteRequestInNumbers(t, im.area);
  }

  /** Every coil of every server after a task. */
  lemma CoilAfterTask(im: Image, t: Task, id: byte, p: nat)
    requires ImageValid(im) && t.Fits(|im.area|) && id in im.bus && p < |im.bus[id].bits|
    ensures id in AfterTask(im, t).bus
    ensures var table, table' := im.bus[id].bits, AfterTask(im, t).bus[id].bits;
            && |table'| == |table|
            && table'[p] == if WritesCoil(t, id, |table|, p)
                            then (if im.area[t.offset + (p - t.addr)] != 0 then 1 else 0) else table[p]
  {
    hide BusValid, Spliced, HostBytes;
    WriteRequestInNumbers(t, im.area);
  }

  /** Writes leave memory alone, reads the servers, and other commands both. */
  lemma TaskLeavesAlone(im: Image, t: Task)
    requires ImageValid(im) && t.Fits(|im.area|)
    ensures t.cmdId != 2 && t.cmdId != 4 ==> AfterTask(im, t).area == im.area && AfterTask(im, t).buf == im.buf
    ensures t.cmdId != 15 && t.cmdId != 16 ==> AfterTask(im, t).bus == im.bus
  {
    hide BusValid;
  }

  // ----- the servers after a round

  /** The number of registers and coils of a server stays. */
  lemma {:induction false} SizesStay(im: Image, tasks: seq<Task>, id: byte)
    requires ImageValid(im) && AllFit(tasks, |im.area|) && id in im.bus
    ensures id in AfterRound(im, tasks).bus
    ensures |AfterRound(im, tasks).bus[id].registers| == |im.bus[id].registers|
    ensures |AfterRound(im, tasks).bus[id].bits| == |im.bus[id].bits|
    decreases |tasks|
  {
    hide BusValid, AfterTask;
    if tasks != [] {
      var n := |tasks| - 1;
      SizesStay(im, tasks[..n], id);
      TaskKeepsSizes(AfterRound(im, tasks[..n]), tasks[n], id);
    }
  }

  lemma TaskKeepsSizes(im: Image, t: Task, id: byte)
    requires ImageValid(im) && t.Fits(|im.area|) && id in im.bus
    ensures id in AfterTask(im, t).bus
    ensures |AfterTask(im, t).bus[id].registers| == |im.bus[id].registers|
    ensures |AfterTask(im, t).bus[id].bits| == |im.bus[id].bits|
  {
    hide BusValid, Spliced, HostBytes, WriteRequest, Direct;
    if t.WritesServer() {
      DirectKeepsSizes(im.bus[id], WriteRequest(t, im.area));
    }
  }

  lemma DirectKeepsSizes(t: Tables, r: Request)
    ensures |Direct(t, r).0.registers| == |t.registers| && |Direct(t, r).0.bits| == |t.bits|
  {
    hide TooMany;
  }

  /** A round is the round of all tasks but the last, and the last task. */
  lemma LastTask(im: Image, tasks: seq<Task>)
    requires ImageValid(im) && AllFit(tasks, |im.area|) && tasks != []
    ensures var n := |tasks| - 1; var before := AfterRound(im, tasks[..n]);
            && AllFit(tasks[..n], |im.area|) && tasks[n].Fits(|before.area|) && ImageValid(before)
            && |before.area| == |im.area| && before.bus.Keys == im.bus.Keys
            && AfterRound(im, tasks) == AfterTask(before, tasks[n])
  {
    hide BusValid, AfterTask;
    assert tasks[|tasks| - 1] in tasks;
  }

  /** No task writes register `p` of the server: it stays. */
  lemma {:induction false} RegisterStays(im: Image, tasks: seq<Task>, id: byte, p: nat)
    requires ImageValid(im) && AllFit(tasks, |im.area|) && id in im.bus && p < |im.bus[id].registers|
    requires forall t :: t in tasks ==> !WritesRegister(t, id, |im.bus[id].registers|, p)
    ensures id in AfterRound(im, tasks).bus && p < |AfterRound(im, tasks).bus[id].registers|
    ensures AfterRound(im, tasks).bus[id].registers[p] == im.bus[id].registers[p]
    decreases |tasks|
  {
    hide BusValid, AfterTask, WritesRegister;
    SizesStay(im, tasks, id);
    if tasks != [] {
      var n := |tasks| - 1;
      RegisterStays(im, tasks[..n], id, p);
      SizesStay(im, tasks[..n], id);
      RegisterAfterTask(AfterRound(im, tasks[..n]), tasks[n], id, p);
    }
  }

  /** A register that a task writes, and no later one, holds the word of memory that the task found. */
  lemma {:induction false} RoundHoldsRegister(im: Image, tasks: seq<Task>, k: nat, id: byte, p: nat)
    requires ImageValid(im) && AllFit(tasks, |im.area|) && id in im.bus && p < |im.bus[id].registers|
    requires k < |tasks| && WritesRegister(tasks[k], id, |im.bus[id].registers|, p)
    requires forall j :: k < j < |tasks| ==> !WritesRegister(tasks[j], id, |im.bus[id].registers|, p)
    ensures id in AfterRound(im, tasks).bus && p < |AfterRound(im, tasks).bus[id].registers|
    ensures WordPosition(tasks[k], p - tasks[k].addr) + 1 < |AfterRound(im, tasks[..k]).area|
    ensures AfterRound(im, tasks).bus[id].registers[p] ==
            MemoryWord(AfterRound(im, tasks[..k]).area, WordPosition(tasks[k], p - tasks[k].addr))
    decreases |tasks|
  {
    hide BusValid, AfterTask, AfterRound, ImageValid, AllFit, WritesRegister, MemoryWord;
    SizesStay(im, tasks, id);
    LastTask(im, tasks);
    var n := |tasks| - 1;
    SizesStay(im, tasks[..n], id);
    RegisterAfterTask(AfterRound(im, tasks[..n]), tasks[n], id, p);
    if k < n {
      RoundHoldsRegister(im, tasks[..n], k, id, p);
      assert tasks[..n][..k] == tasks[..k];
    } else {
      RegisterInMemory(tasks[n], |im.area|, id, |im.bus[id].registers|, p);
    }
  }

  /** A coil that a task writes, and no later one, shows the byte of memory that the task found. */
  lemma {:induction false} RoundHoldsCoil(im: Image, tasks: seq<Task>, k: nat, id: byte, p: nat)
    requires ImageValid(im) && AllFit(tasks, |im.area|) && id in im.bus && p < |im.bus[id].bits|
    requires k < |tasks| && WritesCoil(tasks[k], id, |im.bus[id].bits|, p)
    requires forall j :: k < j < |tasks| ==> !WritesCoil(tasks[j], id, |im.bus[id].bits|, p)
    ensures id in AfterRound(im, tasks).bus && p < |AfterRound(im, tasks).bus[id].bits|
    ensures tasks[k].offset + (p - tasks[k].addr) < |AfterRound(im, tasks[..k]).area|
    ensures AfterRound(im, tasks).bus[id].bits[p] ==
            if AfterRound(im, tasks[..k]).area[tasks[k].offset + (p - tasks[k].addr)] != 0 then 1 else 0
    decreases |tasks|
  {
    hide BusValid, AfterTask, AfterRound, ImageValid, AllFit, WritesCoil;
    SizesStay(im, tasks, id);
    LastTask(im, tasks);
    var n := |tasks| - 1;
    SizesStay(im, tasks[..n], id);
    CoilAfterTask(AfterRound(im, tasks[..n]), tasks[n], id, p);
    if k < n {
      RoundHoldsCoil(im, tasks[..n], k, id, p);
      assert tasks[..n][..k] == tasks[..k];
    } else {
      CoilInMemory(tasks[n], |im.area|, id, |im.bus[id].bits|, p);
    }
  }

  lemma RegisterInMemory(t: Task, size: nat, id: byte, n: nat, p: nat)
    requires t.Fits(size) && WritesRegister(t, id, n, p)
    ensures t.addr <= p && WordPosition(t, p - t.addr) + 1 < size
  {
  }

  lemma CoilInMemory(t: Task, size: nat, id: byte, n: nat, p: nat)
    requires t.Fits(size) && WritesCoil(t, id, n, p)
    ensures t.addr <= p && t.offset + (p - t.addr) < size
  {
  }
}
