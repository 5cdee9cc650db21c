/**
 From the inputs of the four extension modules to the words and bytes a PLC program reads:
 `bsp_input_update`, `BeginReadAll`, and the `Read*` functions of the KW driver.
 */
module InputPath {
  import opened Bytes
  import opened Bits
  import opened BitPacking
  import opened Protocol
  import opened ServerModel
  import opened ClientModel
  import opened EndToEnd
  import opened RtuBus
  import OutputPath

  const INPUT_AI := 512

  predicate HasBits(bus: Bus, id: byte) {
    id in bus && 8 <= |bus[id].inputBits|
  }

  predicate HasWords(bus: Bus, id: byte) {
    id in bus && 8 <= |bus[id].inputRegisters|
  }

  /** Slice `k` of the bit buffer after a read from module `id`: its inputs, or what was there. */
  function BitsRead(bus: Bus, id: byte, before: seq<byte>): seq<byte> {
    if HasBits(bus, id) then bus[id].inputBits[..8] else before
  }

  function WordsRead(bus: Bus, id: byte, before: seq<word>): seq<word> {
    if HasWords(bus, id) then bus[id].inputRegisters[..8] else before
  }

  /** Slice `k` of a buffer of four. */
  function Part<T>(s: seq<T>, k: nat): seq<T>
    requires |s| == 32 && k < 4
  {
    s[8 * k..8 * k + 8]
  }

  /** Slice `k` has become `t`, and the others are as they were. */
  predicate OnlyPart<T(==)>(s: seq<T>, s': seq<T>, k: nat, t: seq<T>)
    requires |s| == 32 && |s'| == 32
  {
    forall j :: 0 <= j < 4 ==> Part(s', j) == (if j == k then t else Part(s, j))
  }

  lemma SpliceFills<T>(s: seq<T>, k: nat, t: seq<T>)
    requires |s| == 32 && k < 4 && |t| == 8
    ensures OnlyPart(s, Splice(s, 8 * k, t), k, t) && OnlyPart(s, s, k, Part(s, k))
  {
  }

  /** The bits of `v` are the first eight of `bits`. */
  predicate Shows(v: byte, bits: seq<byte>) {
    8 <= |bits| && forall j :: 0 <= j < 8 ==> (BitOf(v, j) <==> bits[j] == 1)
  }

  lemma FoldShows(bits: seq<byte>, v: byte)
    requires |bits| == 8 && ZeroOne(bits) && v == IoFold(bits, 0, 8)
    ensures Shows(v, bits)
  {
    hide IoFold, BitOf;
    forall j | 0 <= j < 8
      ensures BitOf(v, j) <==> bits[j] == 1
    {
      IoFoldBit(bits, 0, 8, j);
    }
  }

  lemma ZeroFold(bits: seq<byte>, v: byte)
    requires |bits| == 8 && v == IoFold(bits, 0, 8) && forall i :: 0 <= i < 8 ==> bits[i] == 0
    ensures v == 0
  {
    FoldShows(bits, v);
    forall j | 0 <= j < 8 ensures BitOf(v, j) == BitOf(0, j) {
      ZeroHasNoBits(j);
      assert !BitOf(v, j);
    }
    SameByte(v, 0);
  }

  lemma StaleShows(buf: seq<byte>, k: nat, v: byte)
    requires |buf| == 32 && k < 4 && ZeroOne(buf) && v == IoFold(Part(buf, k), 0, 8)
    ensures Shows(v, buf[8 * k..8 * k + 8])
  {
    hide IoFold, Shows;
    FoldShows(Part(buf, k), v);
  }

  lemma SliceShows(bus: Bus, id: byte, bits: seq<byte>, v: byte)
    requires BusValid(bus) && HasBits(bus, id) && bits == bus[id].inputBits[..8] && v == IoFold(bits, 0, 8)
    ensures Shows(v, bus[id].inputBits)
  {
    hide IoFold, BitOf;
    FoldShows(bits, v);
    assert forall j :: 0 <= j < 8 ==> bits[j] == bus[id].inputBits[j];
  }

  class KwInputs {
    const shm: array<byte>
    const inputBuf: array<byte>
    const adcBuf: array<word>
    var slave: byte
    var bus: Bus

    /** The buffers are globals, zero at first. */
    constructor (shm: array<byte>, bus: Bus)
      requires shm.Length == OutputPath.SHM_SIZE && BusValid(bus)
      ensures this.shm == shm && this.bus == bus && fresh(inputBuf) && fresh(adcBuf) && Valid()
    {
      this.shm, this.bus, slave := shm, bus, 4;
      inputBuf := new byte[32](_ => 0);
      adcBuf := new word[32](_ => 0);
    }

    /** The second slice of the bit buffer is never filled. */
    ghost predicate Valid()
      reads this, inputBuf
    {
      && shm.Length == OutputPath.SHM_SIZE && inputBuf.Length == 32 && adcBuf.Length == 32
      && shm != inputBuf && (shm as object) != adcBuf && (inputBuf as object) != adcBuf
      && BusValid(bus) && ZeroOne(inputBuf[..])
      && forall i :: 8 <= i < 16 ==> inputBuf[i] == 0
    }

    /** `modbus_read_input_bits(ctx, 0, 8, &input_buf[8 * k])`. */
    method ReadBitsInto(k: nat)
      requires Valid() && slave != 0 && k < 4 && k != 1
      modifies this`bus, inputBuf
      ensures Valid() && bus == old(bus)
      ensures OnlyPart(old(inputBuf[..]), inputBuf[..], k, BitsRead(bus, slave, Part(old(inputBuf[..]), k)))
    {
      hide BusCall, BusCallable, Part, OnlyPart, Direct;
      ghost var before := inputBuf[..];
      AnyBusCall(bus, slave, ReadInputBits(0, 8));
      var (bus', result) := BusCall(bus, slave, ReadInputBits(0, 8));
      if slave in bus {
        DirectBits(bus, slave);
      }
      bus := bus';
      if result.Ok? && result.value.BitValues? && |result.value.bits| == 8 {
        forall i | 0 <= i < 8 {
          inputBuf[8 * k + i] := result.value.bits[i];
        }
        assert inputBuf[..] == Splice(before, 8 * k, result.value.bits);
        SpliceFills(before, k, result.value.bits);
      } else {
        SpliceFills(before, k, inputBuf[..8]);
      }
    }

    lemma DirectBits(bus: Bus, id: byte)
      requires id in bus
      ensures Direct(bus[id], ReadInputBits(0, 8)) ==
              (bus[id], if HasBits(bus, id) then Ok(BitValues(bus[id].inputBits[..8]))
                        else Err(ModbusException(ILLEGAL_DATA_ADDRESS)))
      ensures bus[id := bus[id]] == bus
    {
    }

    /** `modbus_read_input_registers(ctx, 0, 8, &adc_buf[8 * k])`. */
    method ReadWordsInto(k: nat)
      requires Valid() && slave != 0 && k < 4
      modifies this`bus, adcBuf
      ensures Valid() && bus == old(bus)
      ensures OnlyPart(old(adcBuf[..]), adcBuf[..], k, WordsRead(bus, slave, Part(old(adcBuf[..]), k)))
    {
      hide BusCall, BusCallable, BusValid, ZeroOne, Part, OnlyPart, Direct;
      ghost var before := adcBuf[..];
      AnyBusCall(bus, slave, ReadInputRegisters(0, 8));
      var (bus', result) := BusCall(bus, slave, ReadInputRegisters(0, 8));
      if slave in bus {
        DirectWords(bus, slave);
      }
      bus := bus';
      if result.Ok? && result.value.WordValues? && |result.value.words| == 8 {
        forall i | 0 <= i < 8 {
          adcBuf[8 * k + i] := result.value.words[i];
        }
        assert adcBuf[..] == Splice(before, 8 * k, result.value.words);
        SpliceFills(before, k, result.value.words);
      } else {
        SpliceFills(before, k, adcBuf[..8]);
      }
    }

    lemma DirectWords(bus: Bus, id: byte)
      requires id in bus
      ensures Direct(bus[id], ReadInputRegisters(0, 8)) ==
              (bus[id], if HasWords(bus, id) then Ok(WordValues(bus[id].inputRegisters[..8]))
                        else Err(ModbusException(ILLEGAL_DATA_ADDRESS)))
      ensures bus[id := bus[id]] == bus
    {
    }

    /** `bsp_input_update`: modules 3 and 4 share a slice of the bit buffer, and the second slice is left out. */
    method BspInputUpdate()
      requires Valid()
      modifies this`bus, this`slave, inputBuf, adcBuf
      ensures Valid() && bus == old(bus)
      ensures var before, after := old(inputBuf[..]), inputBuf[..];
              && Part(after, 0) == BitsRead(bus, 2, Part(before, 0))
              && Part(after, 1) == Part(before, 1)
              && Part(after, 2) == BitsRead(bus, 4, BitsRead(bus, 3, Part(before, 2)))
              && Part(after, 3) == BitsRead(bus, 5, Part(before, 3))
      ensures var before, after := old(adcBuf[..]), adcBuf[..];
              forall k :: 0 <= k < 4 ==> Part(after, k) == WordsRead(bus, 2 + k, Part(before, k))
    {
      hide BusValid, BitsRead, WordsRead, ZeroOne, Part;
      slave := 2;
      ReadBitsInto(0);
      ReadWordsInto(0);
      slave := 3;
      ReadWordsInto(1);
      ReadBitsInto(2);
      slave := 4;
      ReadBitsInto(2);
      ReadWordsInto(2);
      slave := 5;
      ReadBitsInto(3);
      ReadWordsInto(3);
    }

    /** The two loops of `BeginReadAll`: bits packed into four bytes, words stored low byte first. */
    method StoreImage()
      requires Valid()
      modifies shm
      ensures Valid()
      ensures forall k :: 0 <= k < 4 ==> shm[k] == IoFold(Part(inputBuf[..], k), 0, 8)
      ensures forall i :: 0 <= i < 32 ==>
                shm[INPUT_AI + 2 * i] == Lo(adcBuf[i]) && shm[INPUT_AI + 2 * i + 1] == Hi(adcBuf[i])
      ensures forall p :: 4 <= p < OutputPath.SHM_SIZE && !(512 <= p < 576) ==> shm[p] == old(shm[p])
    {
      hide IoFold, ZeroOne, BusValid;
      ghost var image := inputBuf[..];
      for i := 0 to 4
        invariant forall k :: 0 <= k < i ==> shm[k] == IoFold(Part(inputBuf[..], k), 0, 8)
        invariant forall p :: 4 <= p < OutputPath.SHM_SIZE ==> shm[p] == old(shm[p])
      {
        shm[i] := GetByteFromBits(inputBuf, i * 8, 8);
      }
      for i := 0 to 32
        invariant forall k :: 0 <= k < 4 ==> shm[k] == IoFold(Part(inputBuf[..], k), 0, 8)
        invariant forall k :: 0 <= k < i ==>
                    shm[INPUT_AI + 2 * k] == Lo(adcBuf[k]) && shm[INPUT_AI + 2 * k + 1] == Hi(adcBuf[k])
        invariant forall p :: 4 <= p < OutputPath.SHM_SIZE && !(512 <= p < 576) ==> shm[p] == old(shm[p])
      {
        shm[INPUT_AI + 2 * i] := Lo(adcBuf[i]);
        shm[INPUT_AI + 2 * i + 1] := Hi(adcBuf[i]);
      }
    }

    /** `ReadByte`. */
    function ReadByte(p0: nat): byte
      requires shm.Length == OutputPath.SHM_SIZE
      reads shm
    {
      if p0 < 512 then shm[p0] else 0
    }

    /** `ReadUInt16`. */
    function ReadUInt16(p0: nat): word
      requires shm.Length == OutputPath.SHM_SIZE
      reads shm
    {
      if p0 < 1024 then Word(shm[INPUT_AI + p0 * 2 + 1], shm[INPUT_AI + p0 * 2]) else 0
    }

    /** The input words of module `id` are its input registers. */
    ghost predicate WordsShown(id: byte)
      requires shm.Length == OutputPath.SHM_SIZE && 2 <= id < 6 && HasWords(bus, id)
      reads this, shm
    {
      forall i :: 0 <= i < 8 ==>
        var p, w := 512 + 2 * (8 * (id - 2) + i), bus[id].inputRegisters[i];
        shm[p] == w % 256 && shm[p + 1] == w / 256 && ReadUInt16(8 * (id - 2) + i) == w
    }

    /** The input words of module `id`, which is not there, are what the buffer held. */
    ghost predicate WordsStale(id: byte, before: seq<word>)
      requires shm.Length == OutputPath.SHM_SIZE && 2 <= id < 6 && |before| == 32
      reads shm
    {
      var words := before[8 * (id - 2)..8 * (id - 2) + 8];
      forall i :: 0 <= i < 8 ==> ReadUInt16(8 * (id - 2) + i) == words[i]
    }

    /**
     `BeginReadAll`: input word `8 * k + i` is input register `i` of module `2 + k`, for each module that is
     there; bytes 0, 2 and 3 are the discrete inputs of modules 2, 4 and 5.  Byte 1, meant for module 3, is always
     zero, and so right exactly when all its inputs are.
     */
    method BeginReadAll()
      requires Valid()
      modifies this`bus, this`slave, inputBuf, adcBuf, shm
      ensures Valid() && bus == old(bus)
      ensures forall id :: 2 <= id < 6 && HasWords(bus, id) ==> WordsShown(id)
      ensures forall id :: 2 <= id < 6 && !HasWords(bus, id) ==> WordsStale(id, old(adcBuf[..]))
      ensures HasBits(bus, 2) ==> Shows(ReadByte(0), bus[2].inputBits)
      ensures ReadByte(1) == 0
      ensures HasBits(bus, 3) ==>
                (Shows(ReadByte(1), bus[3].inputBits) <==> forall j :: 0 <= j < 8 ==> bus[3].inputBits[j] == 0)
      ensures HasBits(bus, 4) ==> Shows(ReadByte(2), bus[4].inputBits)
      ensures HasBits(bus, 3) && !HasBits(bus, 4) ==> Shows(ReadByte(2), bus[3].inputBits)
      ensures HasBits(bus, 5) ==> Shows(ReadByte(3), bus[5].inputBits)
      ensures !HasBits(bus, 2) ==> Shows(ReadByte(0), old(inputBuf[0..8]))
      ensures !HasBits(bus, 3) && !HasBits(bus, 4) ==> Shows(ReadByte(2), old(inputBuf[16..24]))
      ensures !HasBits(bus, 5) ==> Shows(ReadByte(3), old(inputBuf[24..32]))
      ensures forall p :: 4 <= p < OutputPath.SHM_SIZE && !(512 <= p < 576) ==> shm[p] == old(shm[p])
    {
      hide IoFold, BusValid, ZeroOne, Shows, HasBits, HasWords, Part;
      ghost var before := inputBuf[..];
      BspInputUpdate();
      StoreImage();
      ghost var image := inputBuf[..];
      EmptySlice();
      if HasBits(bus, 2) { SliceShows(bus, 2, Part(image, 0), shm[0]); } else { StaleShows(before, 0, shm[0]); }
      if HasBits(bus, 3) { ZeroShows(bus, 3, shm[1]); }
      if HasBits(bus, 4) {
        SliceShows(bus, 4, Part(image, 2), shm[2]);
      } else if HasBits(bus, 3) {
        SliceShows(bus, 3, Part(image, 2), shm[2]);
      } else {
        StaleShows(before, 2, shm[2]);
      }
      if HasBits(bus, 5) { SliceShows(bus, 5, Part(image, 3), shm[3]); } else { StaleShows(before, 3, shm[3]); }
      forall id | 2 <= id < 6 && HasWords(bus, id)
        ensures WordsShown(id)
      {
        SliceOfWords(id, Part(old(adcBuf[..]), id - 2));
      }
      forall id | 2 <= id < 6 && !HasWords(bus, id)
        ensures WordsStale(id, old(adcBuf[..]))
      {
        StaleSlice(id, old(adcBuf[..]));
      }
    }

    lemma StaleSlice(id: byte, before: seq<word>)
      requires Valid() && 2 <= id < 6 && !HasWords(bus, id) && |before| == 32
      requires Part(adcBuf[..], id - 2) == WordsRead(bus, id, Part(before, id - 2))
      requires forall i :: 0 <= i < 32 ==>
                 shm[INPUT_AI + 2 * i] == Lo(adcBuf[i]) && shm[INPUT_AI + 2 * i + 1] == Hi(adcBuf[i])
      ensures WordsStale(id, before)
    {
      var words := before[8 * (id - 2)..8 * (id - 2) + 8];
      forall i | 0 <= i < 8
        ensures ReadUInt16(8 * (id - 2) + i) == words[i]
      {
        var n := 8 * (id - 2) + i;
        assert Part(adcBuf[..], id - 2)[i] == adcBuf[n] && Part(before, id - 2)[i] == before[n];
        WordOfHiLo(adcBuf[n]);
      }
    }

    lemma EmptySlice()
      requires Valid() && shm[1] == IoFold(Part(inputBuf[..], 1), 0, 8)
      ensures shm[1] == 0
    {
      ZeroFold(Part(inputBuf[..], 1), shm[1]);
    }

    lemma SliceOfWords(id: byte, before: seq<word>)
      requires Valid() && 2 <= id < 6 && HasWords(bus, id)
      requires Part(adcBuf[..], id - 2) == WordsRead(bus, id, before)
      requires forall i :: 0 <= i < 32 ==>
                 shm[INPUT_AI + 2 * i] == Lo(adcBuf[i]) && shm[INPUT_AI + 2 * i + 1] == Hi(adcBuf[i])
      ensures WordsShown(id)
    {
      forall i | 0 <= i < 8
        ensures var p, w := 512 + 2 * (8 * (id - 2) + i), bus[id].inputRegisters[i];
                shm[p] == w % 256 && shm[p + 1] == w / 256 && ReadUInt16(8 * (id - 2) + i) == w
      {
        var n := 8 * (id - 2) + i;
        assert Part(adcBuf[..], id - 2)[i] == adcBuf[n] == bus[id].inputRegisters[..8][i];
        WordOfHiLo(adcBuf[n]);
      }
    }
  }

  /** A zero shows the inputs of a module exactly when they are all zero. */
  lemma ZeroShows(bus: Bus, id: byte, v: byte)
    requires HasBits(bus, id) && BusValid(bus) && v == 0
    ensures Shows(v, bus[id].inputBits) <==> forall j :: 0 <= j < 8 ==> bus[id].inputBits[j] == 0
  {
    var bits := bus[id].inputBits;
    forall j | 0 <= j < 8 ensures !BitOf(v, j) {
      ZeroHasNoBits(j);
    }
    assert ZeroOne(bits);
  }

  /** Module 3 alone is there, with its first input set: byte 1 does not show it. */
  method SecondByteWrong(shm: array<byte>) returns (d: KwInputs)
    requires shm.Length == OutputPath.SHM_SIZE
    modifies shm
    ensures fresh(d) && d.shm == shm && HasBits(d.bus, 3) && d.bus[3].inputBits[0] == 1
    ensures !Shows(d.ReadByte(1), d.bus[3].inputBits)
  {
    hide KwInputs.Valid, Shows;
    var bits := [1, 0, 0, 0, 0, 0, 0, 0];
    var bus: Bus := map[3 := Tables([], bits, [], [])];
    assert ZeroOne(bits);
    d := new KwInputs(shm, bus);
    d.BeginReadAll();
    assert d.bus[3].inputBits[0] == 1;
  }
}
