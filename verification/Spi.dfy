/**
 `ModbusChannelManager`: the SPI buffers, the channels, and the transfer of module values between the
 buffers and shared memory.
 */
module Spi {
  import opened Bytes
  import opened SpiLayout
  import opened SpiTransfer

  const MODULE_NOT_FOUND: byte := 255

  /** The parts of `share_memory_area_t` that the manager uses; `health` runs on into the reserved bytes. */
  datatype ShareMemory = ShareMemory(
    inputDi: array<byte>,
    inputAi: array<byte>,
    outputDo: array<byte>,
    outputAo: array<byte>,
    ioConfig: array<byte>,
    health: array<byte>)
  {
    predicate Valid() {
      && inputDi.Length == 512 && inputAi.Length == 2048 && outputDo.Length == 512 && outputAo.Length == 512
      && ioConfig.Length == CONFIG_LEN && health.Length == 256 + 1741
      && inputDi != outputDo && inputDi != outputAo
    }
  }

  method SwapAssign(source: array<byte>, i: nat, sink: array<byte>, j: nat)
    requires i + 1 < source.Length && j + 1 < sink.Length && source != sink
    modifies source
    ensures source[..] == old(source[..])[i := sink[j + 1]][i + 1 := sink[j]]
  {
    source[i] := sink[j + 1];
    source[i + 1] := sink[j];
  }

  /** Plain copy of `n` bytes between two buffers. */
  method CopyBytes(dst: array<byte>, d: nat, src: array<byte>, s: nat, n: nat)
    requires d + n <= dst.Length && s + n <= src.Length && dst != src
    modifies dst
    ensures forall p :: 0 <= p < dst.Length ==> dst[p] == if d <= p < d + n then src[s + (p - d)] else old(dst[p])
  {
    for i := 0 to n
      invariant forall p :: 0 <= p < dst.Length ==> dst[p] == if d <= p < d + i then src[s + (p - d)] else old(dst[p])
    {
      dst[d + i] := src[s + i];
    }
  }

  /** Copy of `n` bytes with the two bytes of each word swapped. */
  method CopySwapped(dst: array<byte>, d: nat, src: array<byte>, s: nat, n: nat)
    requires d + n <= dst.Length && s + n <= src.Length && dst != src && n % 2 == 0
    modifies dst
    ensures forall p :: 0 <= p < dst.Length ==>
              dst[p] == if d <= p < d + n then src[s + SwapIndex(p - d)] else old(dst[p])
  {
    var i := 0;
    while i < n
      invariant 0 <= i <= n && i % 2 == 0
      invariant forall p :: 0 <= p < dst.Length ==>
                  dst[p] == if d <= p < d + i then src[s + SwapIndex(p - d)] else old(dst[p])
    {
      SwapAssign(dst, d + i, src, s + i);
      i := i + 2;
    }
  }

  class ModbusChannelManager {
    const spiBuf: array<byte>
    const spiBufRx: array<byte>
    const moduleConf: array<byte>
    const shm: ShareMemory
    var vec: seq<DataChannel>
    var spiTransferLen: nat

    constructor (shm: ShareMemory)
      requires shm.Valid()
      ensures Valid() && this.shm == shm && vec == []
      ensures fresh(spiBuf) && fresh(spiBufRx) && fresh(moduleConf)
      ensures forall i :: 0 <= i < MODULE_MAX_NUM ==> moduleConf[i] == SPI_MODULE_UNUSED
    {
      this.shm := shm;
      spiBuf := new byte[SPI_BUF_LEN](i => 0);
      spiBufRx := new byte[SPI_BUF_LEN];
      moduleConf := new byte[MODULE_MAX_NUM](i => SPI_MODULE_UNUSED);
      vec, spiTransferLen := [], 0;
    }

    predicate Valid() {
      && shm.Valid() && spiBuf.Length == SPI_BUF_LEN && spiBufRx.Length == SPI_BUF_LEN
      && moduleConf.Length == MODULE_MAX_NUM && spiBuf != spiBufRx && spiBuf != shm.inputAi && spiBufRx != shm.inputAi
      && moduleConf != shm.health && moduleConf != shm.ioConfig && shm.ioConfig != shm.health
    }

    /** `init`: adds a channel for every module and marks every module as not found. */
    method Init()
      requires Valid() && SlotsFit(shm.ioConfig[..])
      modifies this`vec, this`spiTransferLen, spiBuf, moduleConf, shm.health
      ensures vec == old(vec) + Channels(shm.ioConfig[..], Slots(shm.ioConfig[..], 0))
      ensures spiTransferLen == 32 + CountersAt(shm.ioConfig[..], Slots(shm.ioConfig[..], 0)).spiCount + 4
      ensures spiTransferLen <= SPI_BUF_LEN
      ensures forall i :: 0 <= i < SPI_BUF_LEN ==> spiBuf[i] == if i < 32 then 0xFF else old(spiBuf[i])
      ensures moduleConf[..] == ConfAfter(old(moduleConf[..]), shm.ioConfig[..], Slots(shm.ioConfig[..], 0))
      ensures forall i :: 0 <= i < shm.health.Length ==>
                shm.health[i] == if i < 1023 then 255 else old(shm.health[i])
    {
      FillHeader();
      var c := AddChannels();
      LayoutIsSound(shm.ioConfig[..]);
      spiTransferLen := 32 + c.spiCount + 4;
      MarkHealth();
    }

    /** The `switch` of `init`. */
    method AddModule(channelType: byte, c: Counters, slot: nat) returns (c': Counters)
      requires Valid() && channelType != MODULE_NOT_PRESENT && slot < MODULE_MAX_NUM
      modifies this`vec, moduleConf
      ensures vec == if HasChannel(channelType) then old(vec) + [ChannelFor(channelType, c, slot)] else old(vec)
      ensures moduleConf[..] == old(moduleConf[..])[slot := SpiKind(channelType)]
      ensures c' == Advance(channelType, c)
    {
      c' := c;
      if channelType == MODULE_DI {
        vec := vec + [DataChannel(SPI_MODULE_DI, 24, c.diCount, 32 + c.spiCount, slot)];
        moduleConf[slot] := SPI_MODULE_DI;
        c' := c.(diCount := c.diCount + 3, spiCount := c.spiCount + 3);
      } else if channelType == MODULE_AI {
        vec := vec + [DataChannel(SPI_MODULE_AI, 32, 2 * c.aiCount, 32 + c.spiCount, slot)];
        moduleConf[slot] := SPI_MODULE_AI;
        c' := c.(aiCount := c.aiCount + 16, spiCount := c.spiCount + 32);
      } else if channelType == MODULE_DO {
        vec := vec + [DataChannel(SPI_MODULE_DO, 24, c.doCount, 32 + c.spiCount, slot)];
        moduleConf[slot] := SPI_MODULE_DO;
        c' := c.(doCount := c.doCount + 3, spiCount := c.spiCount + 3);
      } else if channelType == MODULE_AO {
        vec := vec + [DataChannel(SPI_MODULE_AO, 16, 2 * c.aoCount, 32 + c.spiCount, slot)];
        moduleConf[slot] := SPI_MODULE_AO;
        c' := c.(aoCount := c.aoCount + 8, spiCount := c.spiCount + 16);
      } else {
        moduleConf[slot] := SPI_MODULE_UNUSED;
      }
    }

    method FillHeader()
      requires Valid()
      modifies spiBuf
      ensures forall i :: 0 <= i < SPI_BUF_LEN ==> spiBuf[i] == if i < 32 then 0xFF else old(spiBuf[i])
    {
      for i := 0 to 32
        invariant forall j :: 0 <= j < SPI_BUF_LEN ==> spiBuf[j] == if j < i then 0xFF else old(spiBuf[j])
      {
        spiBuf[i] := 0xFF;
      }
    }

    method MarkHealth()
      requires Valid()
      modifies shm.health
      ensures forall i :: 0 <= i < shm.health.Length ==>
                shm.health[i] == if i < 1023 then 255 else old(shm.health[i])
    {
      for j := 1 to CONFIG_LEN
        invariant forall k :: 0 <= k < shm.health.Length ==>
                    shm.health[k] == if k < j - 1 then MODULE_NOT_FOUND else old(shm.health[k])
      {
        shm.health[j - 1] := MODULE_NOT_FOUND;
      }
    }

    /** The loop of `init` over the configuration. */
    method AddChannels() returns (c: Counters)
      requires Valid() && SlotsFit(shm.ioConfig[..])
      modifies this`vec, moduleConf
      ensures vec == old(vec) + Channels(shm.ioConfig[..], Slots(shm.ioConfig[..], 0))
      ensures c == CountersAt(shm.ioConfig[..], Slots(shm.ioConfig[..], 0))
      ensures moduleConf[..] == ConfAfter(old(moduleConf[..]), shm.ioConfig[..], Slots(shm.ioConfig[..], 0))
    {
      ghost var config, slots := shm.ioConfig[..], Slots(shm.ioConfig[..], 0);
      ghost var conf := moduleConf[..];
      hide Slots, ChannelFor, Advance, SpiKind, HasChannel, Channels, CountersAt, ConfAfter;
      NoSlots(config);
      NextConf(conf, config, 0);
      c := Counters(0, 0, 0, 0, 0);
      var i := 1;
      while i < CONFIG_LEN
        invariant 1 <= i <= CONFIG_LEN && i - 1 <= slots
        invariant shm.ioConfig[..] == config
        invariant c == CountersAt(config, i - 1) && vec == old(vec) + Channels(config, i - 1)
        invariant moduleConf[..] == ConfAfter(conf, config, i - 1)
      {
        var channelType := shm.ioConfig[i - 1];
        assert channelType == config[i - 1];
        if channelType == MODULE_TYPE_DONE {
          break;
        }
        if channelType != MODULE_NOT_PRESENT {
          c := AddModule(channelType, c, i - 1);
        }
        NextSlot(config, i);
        NextConf(conf, config, i - 1);
        assert old(vec) + Channels(config, i) ==
               if HasChannel(channelType) then
                 old(vec) + Channels(config, i - 1) + [ChannelFor(channelType, CountersAt(config, i - 1), i - 1)]
               else old(vec) + Channels(config, i - 1);
        i := i + 1;
      }
      assert i - 1 == slots;
    }

    /** `reconfig`: whatever was there before, the channels are those of the configuration, without overlap. */
    method Reconfig()
      requires Valid() && SlotsFit(shm.ioConfig[..])
      modifies this`vec, this`spiTransferLen, spiBuf, moduleConf, shm.health
      ensures vec == Channels(shm.ioConfig[..], Slots(shm.ioConfig[..], 0)) && LaidOut(vec)
      ensures spiTransferLen == 32 + CountersAt(shm.ioConfig[..], Slots(shm.ioConfig[..], 0)).spiCount + 4
      ensures 36 <= spiTransferLen <= 2048
    {
      vec := [];
      Init();
      LayoutIsSound(shm.ioConfig[..]);
    }

    /** `write`: one output channel into the SPI buffer, if its module is well. */
    method Write(c: DataChannel)
      requires Valid() && InBounds(c)
      modifies spiBuf
      ensures spiBuf[..] == Written(old(spiBuf[..]), c, spiBufRx[..], OutputAreas())
    {
      if spiBufRx[c.status] == MODULE_STATUS_OK {
        if c.kind == SPI_MODULE_DO {
          CopyBytes(spiBuf, c.sink, shm.outputDo, c.source, 3);
        }
        if c.kind == SPI_MODULE_AO {
          CopySwapped(spiBuf, c.sink, shm.outputAo, c.source, 16);
        }
      }
    }

    /** The areas output channels read. */
    ghost function OutputAreas(): Outputs
      reads shm.outputDo, shm.outputAo
    {
      Outputs(shm.outputDo[..], shm.outputAo[..])
    }

    /** `writeAll`. */
    method WriteAll()
      requires Valid() && AllInBounds(vec)
      modifies spiBuf
      ensures spiBuf[..] == AllWritten(old(spiBuf[..]), vec, spiBufRx[..], OutputAreas())
    {
      hide Written;
      for n := 0 to |vec|
        invariant spiBuf[..] == AllWritten(old(spiBuf[..]), vec[..n], spiBufRx[..], OutputAreas())
      {
        assert vec[..n + 1][..n] == vec[..n];
        Write(vec[n]);
      }
      assert vec[..|vec|] == vec;
    }

    /** `read`: the SPI bytes of one input channel into shared memory, if its module is well. */
    method Read(c: DataChannel)
      requires Valid() && InBounds(c)
      modifies shm.inputDi, shm.inputAi
      ensures shm.inputDi[..] == Filled(old(shm.inputDi[..]), c, spiBufRx[..], SPI_MODULE_DI)
      ensures shm.inputAi[..] == Filled(old(shm.inputAi[..]), c, spiBufRx[..], SPI_MODULE_AI)
    {
      if spiBufRx[c.status] == MODULE_STATUS_OK {
        if c.kind == SPI_MODULE_DI {
          CopyBytes(shm.inputDi, c.source, spiBufRx, c.sink, 3);
        }
        if c.kind == SPI_MODULE_AI {
          CopySwapped(shm.inputAi, c.source, spiBufRx, c.sink, 32);
        }
      }
    }

    /** `readAll`. */
    method ReadAll()
      requires Valid() && AllInBounds(vec)
      modifies shm.inputDi, shm.inputAi
      ensures shm.inputDi[..] == AllFilled(old(shm.inputDi[..]), vec, spiBufRx[..], SPI_MODULE_DI)
      ensures shm.inputAi[..] == AllFilled(old(shm.inputAi[..]), vec, spiBufRx[..], SPI_MODULE_AI)
    {
      hide Filled;
      for n := 0 to |vec|
        invariant shm.inputDi[..] == AllFilled(old(shm.inputDi[..]), vec[..n], spiBufRx[..], SPI_MODULE_DI)
        invariant shm.inputAi[..] == AllFilled(old(shm.inputAi[..]), vec[..n], spiBufRx[..], SPI_MODULE_AI)
      {
        assert vec[..n + 1][..n] == vec[..n];
        Read(vec[n]);
      }
      assert vec[..|vec|] == vec;
    }
  }
}
