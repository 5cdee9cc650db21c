/**
 From the bytes a PLC program writes to the coils of the four extension modules: `WriteByte` and
 `EndWriteAll` of the KW driver, and `bsp_output_update` underneath.  The modules share one RTU line.
 */
module OutputPath {
  import opened Bytes
  import opened Bits
  import opened BitPacking
  import opened Protocol
  import opened ServerModel
  import opened ClientModel
  import opened RtuBus

  // ----- the output image and the four modules

  /** `SHM_Buff_SYS`, as the KW runtime declares it. */
  const SHM_SIZE := 0xFFFF
  const OUTPUT_BASE := 3 * 1024
  const OUTPUT_SIZE := 512
  const FIRST_MODULE: byte := 2
  const MODULES := 4

  /** There is a module with id `slave`, and it has eight coils. */
  predicate Serves(bus: Bus, slave: byte) {
    slave in bus && 8 <= |bus[slave].bits|
  }

  /** Writing eight coils of one module from its slice of the output buffer. */
  function ModuleWritten(bus: Bus, slave: byte, coils: seq<byte>): Bus
    requires |coils| == 8
  {
    if Serves(bus, slave) then
      bus[slave := bus[slave].(bits := Splice(bus[slave].bits, 0, Normalized(coils)))]
    else bus
  }

  /** `bsp_output_update` on the first `n` modules. */
  function ModulesWritten(bus: Bus, buf: seq<byte>, n: nat): Bus
    requires n <= MODULES && 8 * MODULES <= |buf|
  {
    if n == 0 then bus
    else ModuleWritten(ModulesWritten(bus, buf, n - 1), FIRST_MODULE + (n - 1), buf[8 * (n - 1)..8 * n])
  }

  lemma CallWritesModule(bus: Bus, slave: byte, coils: seq<byte>)
    requires BusValid(bus) && slave != 0 && |coils| == 8
    ensures BusCallable(bus, slave, WriteBits(0, coils))
    ensures BusCall(bus, slave, WriteBits(0, coils)).0 == ModuleWritten(bus, slave, coils)
    ensures BusCall(bus, slave, WriteBits(0, coils)).1 == Ok(Written(8)) <==> Serves(bus, slave)
    ensures forall id :: Serves(ModuleWritten(bus, slave, coils), id) <==> Serves(bus, id)
    ensures BusValid(ModuleWritten(bus, slave, coils))
  {
    hide Normalized, BusCall, BusCallable, BusValid;
    BusCallIsDirect(bus, slave, WriteBits(0, coils));
    if slave in bus && |bus[slave].bits| < 8 {
      assert bus[slave := bus[slave]] == bus;
    }
  }

  /** Module `2 + k` shows slice `k` of the buffer on its first eight coils, and nothing else has changed. */
  lemma {:induction false} ModulesShow(bus: Bus, buf: seq<byte>, n: nat, id: byte)
    requires n <= MODULES && 8 * MODULES <= |buf| && id in bus
    ensures ModulesWritten(bus, buf, n).Keys == bus.Keys
    ensures var t, t', k := bus[id], ModulesWritten(bus, buf, n)[id], id - FIRST_MODULE;
            t' == if 0 <= k < n && Serves(bus, id)
                  then t.(bits := Splice(t.bits, 0, Normalized(buf[8 * k..8 * k + 8]))) else t
    decreases n
  {
    hide Normalized, Splice;
    if n > 0 {
      ModulesShow(bus, buf, n - 1, id);
      assert 8 * n == 8 * (n - 1) + 8;
    }
  }

  /** The KW driver: the shared memory it maps, its output buffer, and the line with the modules. */
  class KwIoDriver {
    const shm: array<byte>
    const outputBuf: array<byte>
    var slave: byte
    var bus: Bus

    constructor (shm: array<byte>, bus: Bus)
      requires shm.Length == SHM_SIZE && BusValid(bus)
      ensures this.shm == shm && this.bus == bus && fresh(outputBuf) && Valid()
    {
      this.shm, this.bus, slave := shm, bus, 4;
      outputBuf := new byte[32];
    }

    ghost predicate Valid()
      reads this
    {
      && shm.Length == SHM_SIZE && outputBuf.Length == 32 && shm != outputBuf && BusValid(bus)
    }

    /**
     `WriteByte` and `WriteSByte`: offsets past the output area are ignored, negative ones are not, and reach
     what lies before it.
     */
    method WriteByte(p0: int, p1: byte)
      requires Valid() && -3072 <= p0
      modifies shm
      ensures shm[..] == if p0 < 512 then old(shm[..])[3072 + p0 := p1] else old(shm[..])
    {
      if p0 < OUTPUT_SIZE {
        shm[OUTPUT_BASE + p0] := p1;
      }
    }

    /** `modbus_write_bits(ctx, 0, 8, ...)` to the current slave. */
    method WriteCoils(coils: seq<byte>) returns (rc: Result<nat>)
      requires Valid() && slave != 0 && |coils| == 8
      modifies this`bus
      ensures Valid() && bus == ModuleWritten(old(bus), slave, coils)
      ensures rc == Ok(8) <==> Serves(old(bus), slave)
      ensures forall id :: Serves(bus, id) <==> Serves(old(bus), id)
    {
      CallWritesModule(bus, slave, coils);
      var (bus', result) := BusCall(bus, slave, WriteBits(0, coils));
      bus := bus';
      rc := match result case Ok(out) => (if out.Written? then Ok(out.count) else Ok(0)) case Err(e) => Err(e);
    }

    /** `bsp_output_update`: one slice of the output buffer to each of the slaves 2 to 5. */
    method BspOutputUpdate() returns (ok: bool)
      requires Valid()
      modifies this`bus, this`slave
      ensures Valid() && bus == ModulesWritten(old(bus), outputBuf[..], MODULES)
      ensures ok <==> Serves(old(bus), 2) && Serves(old(bus), 3) && Serves(old(bus), 4) && Serves(old(bus), 5)
    {
      hide ModuleWritten, BusValid, Serves;
      ghost var buf := outputBuf[..];
      var rc;
      slave := 2;
      rc := WriteCoils(outputBuf[0..8]);
      ok := rc == Ok(8);
      assert bus == ModulesWritten(old(bus), buf, 1);
      slave := 3;
      rc := WriteCoils(outputBuf[8..16]);
      ok := ok && rc == Ok(8);
      assert bus == ModulesWritten(old(bus), buf, 2);
      slave := 4;
      rc := WriteCoils(outputBuf[16..24]);
      ok := ok && rc == Ok(8);
      assert bus == ModulesWritten(old(bus), buf, 3);
      slave := 5;
      rc := WriteCoils(outputBuf[24..32]);
      ok := ok && rc == Ok(8);
    }

    /**
     `EndWriteAll`: bit `j` of output byte `k` becomes coil `j` of module `2 + k`, for each of the four modules
     that is there; every other coil, table and module stays as it was.
     */
    method EndWriteAll() returns (ok: bool)
      requires Valid()
      modifies outputBuf, this`bus, this`slave
      ensures Valid() && bus.Keys == old(bus).Keys
      ensures ok <==> Serves(old(bus), 2) && Serves(old(bus), 3) && Serves(old(bus), 4) && Serves(old(bus), 5)
      ensures forall id :: id in bus ==> ModuleShows(old(bus)[id], bus[id], Serves(old(bus), id), id, shm[..])
    {
      hide Unpack, ModuleShows, BusValid;
      var image := shm[OUTPUT_BASE..OUTPUT_BASE + 4];
      SetBitsFromBytes(outputBuf, 0, 32, image);
      ok := BspOutputUpdate();
      KeysKept(old(bus), outputBuf[..], MODULES);
      forall id | id in bus
        ensures id in old(bus) && ModuleShows(old(bus)[id], bus[id], Serves(old(bus), id), id, shm[..])
      {
        ImageShown(old(bus), outputBuf[..], id, image, shm[..]);
      }
    }
  }

  /** The tables `t` of module `id` have become `t'`, which shows the output byte of that module. */
  predicate ModuleShows(t: Tables, t': Tables, serves: bool, id: byte, shm: seq<byte>)
    requires |shm| == SHM_SIZE
  {
    var k := id - 2;
    if 0 <= k < 4 && serves then
      && t' == t.(bits := t'.bits) && |t'.bits| == |t.bits|
      && forall j :: 0 <= j < |t.bits| ==>
           t'.bits[j] == if j < 8 then Unit(BitOf(shm[3072 + k], j)) else t.bits[j]
    else t' == t
  }

  lemma ImageShown(bus: Bus, buf: seq<byte>, id: byte, image: seq<byte>, shm: seq<byte>)
    requires |shm| == SHM_SIZE && image == shm[OUTPUT_BASE..OUTPUT_BASE + 4]
    requires |buf| == 32 && buf == Unpack(image, 32)
    requires id in ModulesWritten(bus, buf, MODULES)
    ensures id in bus
    ensures ModuleShows(bus[id], ModulesWritten(bus, buf, MODULES)[id], Serves(bus, id), id, shm)
  {
    hide ModulesWritten, BitOf;
    KeysKept(bus, buf, MODULES);
    ModulesShow(bus, buf, MODULES, id);
    var k := id - FIRST_MODULE;
    if 0 <= k < MODULES && Serves(bus, id) {
      var coils := buf[8 * k..8 * k + 8];
      forall j | 0 <= j < 8
        ensures Normalized(coils)[j] == Unit(BitOf(shm[OUTPUT_BASE + k], j))
      {
        var q := 8 * k + j;
        assert q / 8 == k && q % 8 == j;
        assert buf[q] == Unit(BitOf(image[k], j)) && coils[j] == buf[q];
      }
    }
  }

  lemma {:induction false} KeysKept(bus: Bus, buf: seq<byte>, n: nat)
    requires n <= MODULES && 8 * MODULES <= |buf|
    ensures ModulesWritten(bus, buf, n).Keys == bus.Keys
    decreases n
  {
    if n > 0 {
      KeysKept(bus, buf, n - 1);
    }
  }

  // ----- a whole output cycle

  /** The writes stay inside shared memory. */
  predicate InMemory(writes: seq<(int, byte)>) {
    forall i :: 0 <= i < |writes| ==> -3072 <= writes[i].0
  }

  /** The shared memory after the `WriteByte` calls of one cycle. */
  function AfterWrites(shm: seq<byte>, writes: seq<(int, byte)>): (r: seq<byte>)
    requires |shm| == SHM_SIZE && InMemory(writes)
    ensures |r| == |shm|
    decreases |writes|
  {
    if writes == [] then shm
    else
      var (p, v) := writes[|writes| - 1];
      var before := AfterWrites(shm, writes[..|writes| - 1]);
      if p < 512 then before[3072 + p := v] else before
  }

  /** The last value written at offset `p`, or else what was there. */
  function LastValue(shm: seq<byte>, writes: seq<(int, byte)>, p: nat): byte
    requires |shm| == SHM_SIZE && p < 512
    decreases |writes|
  {
    if writes == [] then shm[3072 + p]
    else if writes[|writes| - 1].0 == p then writes[|writes| - 1].1
    else LastValue(shm, writes[..|writes| - 1], p)
  }

  lemma {:induction false} LastValueWins(shm: seq<byte>, writes: seq<(int, byte)>, p: nat)
    requires |shm| == SHM_SIZE && p < 512 && InMemory(writes)
    ensures AfterWrites(shm, writes)[3072 + p] == LastValue(shm, writes, p)
    decreases |writes|
  {
    if writes != [] {
      LastValueWins(shm, writes[..|writes| - 1], p);
    }
  }

  /** The first eight coils show the bits of `v`. */
  predicate ShowsByte(bits: seq<byte>, v: byte) {
    8 <= |bits| && forall j :: 0 <= j < 8 ==> bits[j] == Unit(BitOf(v, j))
  }

  /** `WriteByte` for each output the program set, then `EndWriteAll`. */
  method OutputCycle(d: KwIoDriver, writes: seq<(int, byte)>) returns (ok: bool)
    requires d.Valid() && InMemory(writes)
    modifies d.shm, d.outputBuf, d`bus, d`slave
    ensures d.Valid() && d.bus.Keys == old(d.bus).Keys
    ensures ok <==> Serves(old(d.bus), 2) && Serves(old(d.bus), 3) && Serves(old(d.bus), 4) && Serves(old(d.bus), 5)
    ensures forall k :: 0 <= k < 4 && Serves(old(d.bus), 2 + k) ==>
              ShowsByte(d.bus[2 + k].bits, LastValue(old(d.shm[..]), writes, k))
    ensures forall id :: id in d.bus && !(2 <= id < 6 && Serves(old(d.bus), id)) ==> d.bus[id] == old(d.bus)[id]
  {
    hide BusValid, BitOf;
    ghost var shm := d.shm[..];
    for i := 0 to |writes|
      invariant d.Valid() && d.bus == old(d.bus)
      invariant d.shm[..] == AfterWrites(shm, writes[..i])
    {
      assert writes[..i + 1][..i] == writes[..i];
      d.WriteByte(writes[i].0, writes[i].1);
    }
    assert writes[..|writes|] == writes;
    ok := d.EndWriteAll();
    forall k | 0 <= k < 4 && Serves(old(d.bus), 2 + k)
      ensures ShowsByte(d.bus[2 + k].bits, LastValue(shm, writes, k))
    {
      LastValueWins(shm, writes, k);
      assert ModuleShows(old(d.bus)[2 + k], d.bus[2 + k], true, 2 + k, d.shm[..]);
    }
  }
}
