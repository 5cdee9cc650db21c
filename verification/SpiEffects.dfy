/**
 What the SPI manager moves, in numbers: from the configuration bytes to the words on the wire and in shared memory.
 */
module SpiEffects {
  import opened Bytes
  import opened SpiLayout
  import opened SpiTransfer
  import opened Spi

  /** Bytes from `at` on, swapped in pairs, are the sixteen-bit words of `area`, `n` of them. */
  predicate WordsSwapped(wire: seq<byte>, at: nat, area: seq<byte>, source: nat, n: nat) {
    && at + 2 * n <= |wire| && source + 2 * n <= |area|
    && forall i :: 0 <= i < n ==>
         wire[at + 2 * i] == area[source + 2 * i + 1] && wire[at + 2 * i + 1] == area[source + 2 * i]
  }

  predicate BytesCopied(wire: seq<byte>, at: nat, area: seq<byte>, source: nat, n: nat) {
    at + n <= |wire| && source + n <= |area| && wire[at..at + n] == area[source..source + n]
  }

  // ----- channels

  /** A channel whose module reports 3 is sent: analogue outputs word by word, digital outputs as three bytes. */
  lemma OutputsAreSent(tx: seq<byte>, vec: seq<DataChannel>, rx: seq<byte>, out: Outputs, k: nat)
    requires LaidOut(vec) && |tx| == 2048 && |out.aOut| == 512 && |out.dOut| == 512
    requires k < |vec| && vec[k].status < |rx| && rx[vec[k].status] == 3
    ensures AllInBounds(vec)
    ensures vec[k].kind == 0x34 ==>
              WordsSwapped(AllWritten(tx, vec, rx, out), vec[k].sink, out.aOut, vec[k].source, 8)
    ensures vec[k].kind == 0x32 ==>
              BytesCopied(AllWritten(tx, vec, rx, out), vec[k].sink, out.dOut, vec[k].source, 3)
  {
    hide AllWritten, SentBy, BytesCopied, WordsSwapped;
    if vec[k].kind == 0x34 || vec[k].kind == 0x32 {
      AllSent(tx, vec, rx, out, k);
      SentInNumbers(vec[k], AllWritten(tx, vec, rx, out), out.Area(vec[k]));
    }
  }

  lemma SentInNumbers(c: DataChannel, tx: seq<byte>, area: seq<byte>)
    requires SentBy(c, tx, area)
    ensures c.kind == 0x34 ==> WordsSwapped(tx, c.sink, area, c.source, 8)
    ensures c.kind == 0x32 ==> BytesCopied(tx, c.sink, area, c.source, 3)
  {
    forall i | 0 <= i < 8 && c.kind == 0x34
      ensures tx[c.sink + 2 * i] == area[c.source + 2 * i + 1] && tx[c.sink + 2 * i + 1] == area[c.source + 2 * i]
    {
      assert Covers(c, c.sink + 2 * i) && Covers(c, c.sink + 2 * i + 1);
    }
    if c.kind == 0x32 {
      assert Covers(c, c.sink) && Covers(c, c.sink + 1) && Covers(c, c.sink + 2);
    }
  }

  /** Byte `p` of the SPI buffer is in the range of an output channel whose module reports 3. */
  predicate Outgoing(vec: seq<DataChannel>, rx: seq<byte>, p: nat) {
    exists c :: c in vec && c.status < |rx| && rx[c.status] == 3 &&
      ((c.kind == 0x32 && c.sink <= p < c.sink + 3) || (c.kind == 0x34 && c.sink <= p < c.sink + 16))
  }

  /** Nothing else of the SPI buffer changes. */
  lemma OthersAreKept(tx: seq<byte>, vec: seq<DataChannel>, rx: seq<byte>, out: Outputs, p: nat)
    requires AllInBounds(vec) && |tx| == 2048 && |out.aOut| == 512 && |out.dOut| == 512 && p < 2048
    requires !Outgoing(vec, rx, p)
    ensures AllWritten(tx, vec, rx, out)[p] == tx[p]
  {
    hide AllWritten;
    UnownedKept(tx, vec, rx, out, p);
  }

  /** The input areas: words are swapped back, bytes copied. */
  lemma InputsAreReceived(di: seq<byte>, ai: seq<byte>, vec: seq<DataChannel>, rx: seq<byte>, k: nat)
    requires LaidOut(vec) && |rx| == 2048 && |di| == 512 && |ai| == 2048
    requires k < |vec| && rx[vec[k].status] == 3
    ensures AllInBounds(vec)
    ensures vec[k].kind == 0x31 ==>
              BytesCopied(rx, vec[k].sink, AllFilled(di, vec, rx, 0x31), vec[k].source, 3)
    ensures vec[k].kind == 0x33 ==>
              WordsSwapped(rx, vec[k].sink, AllFilled(ai, vec, rx, 0x33), vec[k].source, 16)
  {
    hide AllFilled, ReceivedBy, BytesCopied, WordsSwapped;
    if vec[k].kind == 0x31 {
      AllReceived(di, vec, rx, 0x31, k);
      ReceivedInNumbers(vec[k], AllFilled(di, vec, rx, 0x31), rx);
    } else if vec[k].kind == 0x33 {
      AllReceived(ai, vec, rx, 0x33, k);
      ReceivedInNumbers(vec[k], AllFilled(ai, vec, rx, 0x33), rx);
    }
  }

  lemma ReceivedInNumbers(c: DataChannel, area: seq<byte>, rx: seq<byte>)
    requires ReceivedBy(c, area, rx)
    ensures c.kind == 0x33 ==> WordsSwapped(rx, c.sink, area, c.source, 16)
    ensures c.kind == 0x31 ==> BytesCopied(rx, c.sink, area, c.source, 3)
  {
    forall i | 0 <= i < 16 && c.kind == 0x33
      ensures rx[c.sink + 2 * i] == area[c.source + 2 * i + 1] && rx[c.sink + 2 * i + 1] == area[c.source + 2 * i]
    {
      assert Feeds(c, c.source + 2 * i) && Feeds(c, c.source + 2 * i + 1);
    }
    if c.kind == 0x31 {
      assert Feeds(c, c.source) && Feeds(c, c.source + 1) && Feeds(c, c.source + 2);
    }
  }

  // ----- configurations

  /** The slots before number `s` that hold a module of the type. */
  function Before(config: seq<byte>, s: nat, channelType: byte): nat
    requires s <= |config|
  {
    if s == 0 then 0 else Before(config, s - 1, channelType) + if config[s - 1] == channelType then 1 else 0
  }

  /** Where the bytes of slot `s` begin on the wire. */
  function WirePosition(config: seq<byte>, s: nat): nat
    requires s <= |config|
  {
    32 + 3 * Before(config, s, 1) + 3 * Before(config, s, 2) + 32 * Before(config, s, 3) + 16 * Before(config, s, 4)
  }

  /** A configuration of 1024 slots, of which those from the 33rd on are empty, up to the end mark. */
  predicate Configured(config: seq<byte>) {
    |config| == 1024 && forall i :: 32 <= i < 1023 && InUse(config, i) ==> config[i] == 0
  }

  /** No end mark up to slot `s`, which is not the last. */
  predicate InUse(config: seq<byte>, s: nat) {
    s < 1023 < |config| && forall i :: 0 <= i <= s ==> config[i] != 255
  }

  lemma ConfiguredFits(config: seq<byte>, s: nat)
    requires Configured(config)
    ensures SlotsFit(config) && (InUse(config, s) <==> s < Slots(config, 0))
  {
  }

  /** `module_conf` tells the kinds of the modules: the character 0 plus the type. */
  lemma ConfInNumbers(conf: seq<byte>, config: seq<byte>, n: nat, i: nat)
    requires |conf| == 32 && n <= |config| && i < 32
    ensures ConfAfter(conf, config, n)[i] ==
            if n <= i || config[i] == 0 then conf[i] else if config[i] <= 4 then 48 + config[i] as int else 48
  {
  }

  /** The counters of `init`, by counting modules. */
  lemma {:induction false} CountersInNumbers(config: seq<byte>, n: nat)
    requires n <= |config|
    ensures var c := CountersAt(config, n);
            && c.diCount == 3 * Before(config, n, 1) && c.doCount == 3 * Before(config, n, 2)
            && c.aiCount == 16 * Before(config, n, 3) && c.aoCount == 8 * Before(config, n, 4)
            && 32 + c.spiCount == WirePosition(config, n)
    decreases n
  {
    if n > 0 {
      CountersInNumbers(config, n - 1);
    }
  }

  /** The channel of a slot that holds a module. */
  function SlotChannel(config: seq<byte>, s: nat): DataChannel
    requires s < |config|
  {
    var at := WirePosition(config, s);
    if config[s] == 1 then DataChannel(0x31, 24, 3 * Before(config, s, 1), at, s)
    else if config[s] == 2 then DataChannel(0x32, 24, 3 * Before(config, s, 2), at, s)
    else if config[s] == 3 then DataChannel(0x33, 32, 32 * Before(config, s, 3), at, s)
    else DataChannel(0x34, 16, 16 * Before(config, s, 4), at, s)
  }

  /** The channels are those of the slots that hold modules, in order. */
  lemma {:induction false} ChannelOfSlot(config: seq<byte>, n: nat, s: nat)
    requires s < n <= |config| && 1 <= config[s] <= 4
    ensures SlotChannel(config, s) in Channels(config, n)
    decreases n
  {
    if s < n - 1 {
      ChannelOfSlot(config, n - 1, s);
    } else {
      CountersInNumbers(config, s);
      assert Channels(config, n)[|Channels(config, n - 1)|] == SlotChannel(config, s);
    }
  }

  /** An output module that reports 3: its bytes, or its eight words, high byte first, on the wire. */
  lemma SlotOnWire(config: seq<byte>, s: nat, tx: seq<byte>, rx: seq<byte>, out: Outputs)
    requires Configured(config) && InUse(config, s)
    requires |tx| == 2048 && |rx| == 2048 && |out.aOut| == 512 && |out.dOut| == 512 && rx[s] == 3
    ensures SlotsFit(config) && AllInBounds(Channels(config, Slots(config, 0)))
    ensures var tx', at := AllWritten(tx, Channels(config, Slots(config, 0)), rx, out), WirePosition(config, s);
            && (config[s] == 2 ==> BytesCopied(tx', at, out.dOut, 3 * Before(config, s, 2), 3))
            && (config[s] == 4 ==> WordsSwapped(tx', at, out.aOut, 16 * Before(config, s, 4), 8))
  {
    hide AllWritten, Channels, LaidOut, SlotsFit, Slots, WordsSwapped, BytesCopied, WirePosition;
    ConfiguredFits(config, s);
    LayoutIsSound(config);
    var vec := Channels(config, Slots(config, 0));
    LaidOutInBounds(vec);
    if config[s] == 2 || config[s] == 4 {
      ChannelOfSlot(config, Slots(config, 0), s);
      var k: nat :| k < |vec| && vec[k] == SlotChannel(config, s);
      OutputsAreSent(tx, vec, rx, out, k);
    }
  }

  lemma LaidOutInBounds(vec: seq<DataChannel>)
    requires LaidOut(vec)
    ensures AllInBounds(vec)
  {
  }

  /** An input module that reports 3: its bytes, or its sixteen words, low byte first, in shared memory. */
  lemma SlotInMemory(config: seq<byte>, s: nat, di: seq<byte>, ai: seq<byte>, rx: seq<byte>)
    requires Configured(config) && InUse(config, s)
    requires |rx| == 2048 && |di| == 512 && |ai| == 2048 && rx[s] == 3
    ensures SlotsFit(config) && AllInBounds(Channels(config, Slots(config, 0)))
    ensures var vec, at := Channels(config, Slots(config, 0)), WirePosition(config, s);
            && (config[s] == 1 ==> BytesCopied(rx, at, AllFilled(di, vec, rx, 0x31), 3 * Before(config, s, 1), 3))
            && (config[s] == 3 ==> WordsSwapped(rx, at, AllFilled(ai, vec, rx, 0x33), 32 * Before(config, s, 3), 16))
  {
    hide AllFilled, Channels, LaidOut, SlotsFit, Slots, WordsSwapped, BytesCopied, WirePosition;
    ConfiguredFits(config, s);
    LayoutIsSound(config);
    var vec := Channels(config, Slots(config, 0));
    LaidOutInBounds(vec);
    if config[s] == 1 || config[s] == 3 {
      ChannelOfSlot(config, Slots(config, 0), s);
      var k: nat :| k < |vec| && vec[k] == SlotChannel(config, s);
      InputsAreReceived(di, ai, vec, rx, k);
    }
  }

  /** The slots in use are those before `s`. */
  predicate EndsAt(config: seq<byte>, s: nat) {
    s <= 1023 && (s == 0 || InUse(config, s - 1)) && !InUse(config, s)
  }

  lemma EndOfSlots(config: seq<byte>, s: nat)
    requires Configured(config) && EndsAt(config, s)
    ensures s <= |config| && s == Slots(config, 0)
  {
    ConfiguredFits(config, s);
    if s > 0 {
      ConfiguredFits(config, s - 1);
    }
  }

  /** What slot `s` holds has gone where it belongs, if its module reports 3. */
  ghost predicate SlotMoved(m: ModbusChannelManager, config: seq<byte>, s: nat)
    requires m.Valid() && InUse(config, s)
    reads m.spiBuf, m.spiBufRx, m.shm.inputDi, m.shm.inputAi, m.shm.outputDo, m.shm.outputAo
  {
    var tx, rx, at := m.spiBuf[..], m.spiBufRx[..], WirePosition(config, s);
    s < 32 && rx[s] == 3 ==>
      && (config[s] == 1 ==> BytesCopied(rx, at, m.shm.inputDi[..], 3 * Before(config, s, 1), 3))
      && (config[s] == 2 ==> BytesCopied(tx, at, m.shm.outputDo[..], 3 * Before(config, s, 2), 3))
      && (config[s] == 3 ==> WordsSwapped(rx, at, m.shm.inputAi[..], 32 * Before(config, s, 3), 16))
      && (config[s] == 4 ==> WordsSwapped(tx, at, m.shm.outputAo[..], 16 * Before(config, s, 4), 8))
  }

  /** From the configuration to the values: `reconfig`, `writeAll` and `readAll`, whatever was there before. */
  method ConfiguredCycle(m: ModbusChannelManager)
    requires m.Valid() && Configured(m.shm.ioConfig[..])
    modifies m`vec, m`spiTransferLen, m.spiBuf, m.moduleConf, m.shm.health, m.shm.inputDi, m.shm.inputAi
    ensures forall s: nat :: InUse(old(m.shm.ioConfig[..]), s) ==> SlotMoved(m, old(m.shm.ioConfig[..]), s)
    ensures forall s: nat :: EndsAt(old(m.shm.ioConfig[..]), s) ==>
              m.spiTransferLen == WirePosition(old(m.shm.ioConfig[..]), s) + 4
  {
    hide AllWritten, AllFilled, Channels, LaidOut, SlotsFit, Slots, WordsSwapped, BytesCopied, WirePosition, Configured;
    ghost var config := m.shm.ioConfig[..];
    ConfiguredFits(config, 0);
    m.Reconfig();
    assert m.shm.ioConfig[..] == config;
    LaidOutInBounds(m.vec);
    ghost var tx, di, ai := m.spiBuf[..], m.shm.inputDi[..], m.shm.inputAi[..];
    m.WriteAll();
    ghost var out := m.OutputAreas();
    m.ReadAll();
    assert m.OutputAreas() == out;
    CountersInNumbers(config, Slots(config, 0));
    forall s: nat | EndsAt(config, s)
      ensures s <= |config| && m.spiTransferLen == WirePosition(config, s) + 4
    {
      EndOfSlots(config, s);
    }
    forall s: nat | InUse(config, s)
      ensures SlotMoved(m, config, s)
    {
      if s < 32 && m.spiBufRx[s] == 3 {
        SlotOnWire(config, s, tx, m.spiBufRx[..], out);
        SlotInMemory(config, s, di, ai, m.spiBufRx[..]);
      }
    }
  }
}
