/**
 Where the SPI channels of the configured modules lie: `ModbusChannelManager::init` gives every module a
 range of the SPI buffer and a range of its shared-memory area.
 */
module SpiLayout {
  import opened Bytes

  const SPI_BUF_LEN := 2048
  const MODULE_MAX_NUM := 32
  const CONFIG_LEN := 1024

  // module types in the configuration
  const MODULE_NOT_PRESENT: byte := 0
  const MODULE_DI: byte := 1
  const MODULE_DO: byte := 2
  const MODULE_AI: byte := 3
  const MODULE_AO: byte := 4
  const MODULE_TYPE_DONE: byte := 255

  // module types on the SPI side
  const SPI_MODULE_UNUSED: byte := 0x30
  const SPI_MODULE_DI: byte := 0x31
  const SPI_MODULE_DO: byte := 0x32
  const SPI_MODULE_AI: byte := 0x33
  const SPI_MODULE_AO: byte := 0x34

  /** A channel: byte offsets of its shared-memory range, its SPI range and its status byte. */
  datatype DataChannel = DataChannel(kind: byte, length: nat, source: nat, sink: nat, status: nat)

  /** The counters of `init`; those of the analogue areas count words. */
  datatype Counters = Counters(diCount: nat, aiCount: nat, doCount: nat, aoCount: nat, spiCount: nat)

  /** Bytes a channel occupies, in shared memory as on the wire. */
  function Size(kind: byte): nat {
    if kind == SPI_MODULE_DI || kind == SPI_MODULE_DO then 3
    else if kind == SPI_MODULE_AI then 32
    else if kind == SPI_MODULE_AO then 16
    else 0
  }

  /** Bytes of the shared-memory area that channels of a kind use. */
  function AreaSize(kind: byte): nat {
    if kind == SPI_MODULE_AI then 2048 else 512
  }

  predicate HasChannel(channelType: byte) {
    MODULE_DI <= channelType <= MODULE_AO
  }

  /** What `init` enters into `module_conf` for a module. */
  function SpiKind(channelType: byte): byte {
    if HasChannel(channelType) then 0x30 + channelType else SPI_MODULE_UNUSED
  }

  function ChannelFor(channelType: byte, c: Counters, slot: nat): DataChannel
    requires HasChannel(channelType)
  {
    if channelType == MODULE_DI then DataChannel(SPI_MODULE_DI, 24, c.diCount, 32 + c.spiCount, slot)
    else if channelType == MODULE_AI then DataChannel(SPI_MODULE_AI, 32, 2 * c.aiCount, 32 + c.spiCount, slot)
    else if channelType == MODULE_DO then DataChannel(SPI_MODULE_DO, 24, c.doCount, 32 + c.spiCount, slot)
    else DataChannel(SPI_MODULE_AO, 16, 2 * c.aoCount, 32 + c.spiCount, slot)
  }

  function Advance(channelType: byte, c: Counters): Counters {
    if channelType == MODULE_DI then c.(diCount := c.diCount + 3, spiCount := c.spiCount + 3)
    else if channelType == MODULE_AI then c.(aiCount := c.aiCount + 16, spiCount := c.spiCount + 32)
    else if channelType == MODULE_DO then c.(doCount := c.doCount + 3, spiCount := c.spiCount + 3)
    else if channelType == MODULE_AO then c.(aoCount := c.aoCount + 8, spiCount := c.spiCount + 16)
    else c
  }

  /** The counters after the first `n` slots. */
  function CountersAt(config: seq<byte>, n: nat): Counters
    requires n <= |config|
  {
    if n == 0 then Counters(0, 0, 0, 0, 0) else Advance(config[n - 1], CountersAt(config, n - 1))
  }

  /** The channels of the first `n` slots. */
  function Channels(config: seq<byte>, n: nat): seq<DataChannel>
    requires n <= |config|
  {
    if n == 0 then []
    else if HasChannel(config[n - 1]) then
      Channels(config, n - 1) + [ChannelFor(config[n - 1], CountersAt(config, n - 1), n - 1)]
    else Channels(config, n - 1)
  }

  /** The slots before the end mark, or all but the last, which is never looked at. */
  function Slots(config: seq<byte>, start: nat): (n: nat)
    requires |config| == CONFIG_LEN && start < CONFIG_LEN
    ensures start <= n < CONFIG_LEN && (n == CONFIG_LEN - 1 || config[n] == MODULE_TYPE_DONE)
    ensures forall i :: start <= i < n ==> config[i] != MODULE_TYPE_DONE
    decreases CONFIG_LEN - start
  {
    if start == CONFIG_LEN - 1 || config[start] == MODULE_TYPE_DONE then start else Slots(config, start + 1)
  }

  /** The 33rd and later slots are empty, up to the end mark: `module_conf` has no entry for them. */
  predicate SlotsFit(config: seq<byte>) {
    && |config| == CONFIG_LEN
    && forall i :: MODULE_MAX_NUM <= i < Slots(config, 0) ==> config[i] == MODULE_NOT_PRESENT
  }

  lemma NoSlots(config: seq<byte>)
    ensures Channels(config, 0) == [] && CountersAt(config, 0) == Counters(0, 0, 0, 0, 0)
  {
  }

  lemma NextSlot(config: seq<byte>, n: nat)
    requires 0 < n <= |config|
    ensures CountersAt(config, n) == Advance(config[n - 1], CountersAt(config, n - 1))
    ensures Channels(config, n) ==
            if HasChannel(config[n - 1]) then
              Channels(config, n - 1) + [ChannelFor(config[n - 1], CountersAt(config, n - 1), n - 1)]
            else Channels(config, n - 1)
    ensures config[n - 1] == MODULE_NOT_PRESENT ==>
              Channels(config, n) == Channels(config, n - 1) && CountersAt(config, n) == CountersAt(config, n - 1)
  {
  }

  /** `module_conf` after the first `n` slots: entries of empty slots are as they were. */
  function ConfAfter(conf: seq<byte>, config: seq<byte>, n: nat): (r: seq<byte>)
    requires |conf| == MODULE_MAX_NUM && n <= |config|
    ensures |r| == |conf|
  {
    seq(|conf|, i requires 0 <= i < |conf| =>
      if i < n && config[i] != MODULE_NOT_PRESENT then SpiKind(config[i]) else conf[i])
  }

  lemma NextConf(conf: seq<byte>, config: seq<byte>, n: nat)
    requires |conf| == MODULE_MAX_NUM && n < |config|
    requires MODULE_MAX_NUM <= n ==> config[n] == MODULE_NOT_PRESENT
    ensures ConfAfter(conf, config, 0) == conf
    ensures ConfAfter(conf, config, n + 1) ==
            if config[n] == MODULE_NOT_PRESENT then ConfAfter(conf, config, n)
            else ConfAfter(conf, config, n)[n := SpiKind(config[n])]
  {
  }

  // ----- what the layout guarantees

  /** The channels lie inside the SPI buffer and their shared-memory areas, without overlap. */
  predicate LaidOut(vec: seq<DataChannel>) {
    && (forall k :: 0 <= k < |vec| ==> InBounds(vec[k]))
    && (forall j, k :: 0 <= j < k < |vec| ==> Apart(vec[j], vec[k]))
  }

  predicate InBounds(c: DataChannel) {
    && SPI_MODULE_DI <= c.kind <= SPI_MODULE_AO
    && c.status < 32 <= c.sink && c.sink + Size(c.kind) + 4 <= SPI_BUF_LEN
    && c.source + Size(c.kind) <= AreaSize(c.kind)
  }

  predicate Apart(c: DataChannel, d: DataChannel) {
    && c.sink + Size(c.kind) <= d.sink
    && (c.kind == d.kind ==> c.source + Size(c.kind) <= d.source)
    && c.status < d.status
  }

  /** What is known of the first `n` slots: nothing reaches past the counters, which have their bounds. */
  lemma {:induction false} Behind(config: seq<byte>, n: nat)
    requires n <= |config| && n <= MODULE_MAX_NUM
    ensures var c := CountersAt(config, n);
            && c.spiCount <= 32 * n && c.diCount <= 3 * n && c.doCount <= 3 * n
            && c.aiCount <= 16 * n && c.aoCount <= 8 * n
            && forall k :: 0 <= k < |Channels(config, n)| ==>
                 var d := Channels(config, n)[k];
                 && InBounds(d) && d.status < n && d.sink + Size(d.kind) <= 32 + c.spiCount
                 && d.source + Size(d.kind) <= Reached(c, d.kind)
    decreases n
  {
    if n > 0 {
      Behind(config, n - 1);
    }
  }

  /** How far the channels of a kind reach into their shared-memory area. */
  function Reached(c: Counters, kind: byte): nat {
    if kind == SPI_MODULE_DI then c.diCount
    else if kind == SPI_MODULE_DO then c.doCount
    else if kind == SPI_MODULE_AI then 2 * c.aiCount
    else 2 * c.aoCount
  }

  /** Slots past the 32nd that `init` passes over have no channel. */
  lemma {:induction false} EmptySlots(config: seq<byte>, m: nat, n: nat)
    requires m <= n <= |config| && forall i :: m <= i < n ==> !HasChannel(config[i])
    ensures Channels(config, n) == Channels(config, m) && CountersAt(config, n) == CountersAt(config, m)
    decreases n
  {
    if m < n {
      EmptySlots(config, m, n - 1);
    }
  }

  lemma {:induction false} FirstSlotsLaidOut(config: seq<byte>, n: nat)
    requires n <= |config| && n <= MODULE_MAX_NUM
    ensures LaidOut(Channels(config, n))
    decreases n
  {
    hide InBounds;
    Behind(config, n);
    if n > 0 {
      FirstSlotsLaidOut(config, n - 1);
      Behind(config, n - 1);
    }
  }

  /** For every configuration `init` can cope with, the channels are laid out and the transfer fits. */
  lemma LayoutIsSound(config: seq<byte>)
    requires SlotsFit(config)
    ensures LaidOut(Channels(config, Slots(config, 0)))
    ensures 32 + CountersAt(config, Slots(config, 0)).spiCount + 4 <= SPI_BUF_LEN
  {
    var n := Slots(config, 0);
    var m := Min(n, MODULE_MAX_NUM);
    forall i | m <= i < n ensures !HasChannel(config[i]) {
    }
    EmptySlots(config, m, n);
    FirstSlotsLaidOut(config, m);
    Behind(config, m);
  }

  /** The channel that covers byte `p` of the SPI buffer. */
  predicate Covers(c: DataChannel, p: nat) {
    c.sink <= p < c.sink + Size(c.kind)
  }

  /** A channel begins where the last one ended, and is as long as the counter advances. */
  lemma AdvanceBySize(channelType: byte, c: Counters, slot: nat)
    requires HasChannel(channelType)
    ensures var d := ChannelFor(channelType, c, slot);
            d.sink == 32 + c.spiCount && Advance(channelType, c).spiCount == c.spiCount + Size(d.kind)
  {
  }

  /** Byte `p` of the SPI buffer is in a channel. */
  predicate Covered(vec: seq<DataChannel>, p: nat) {
    exists k :: 0 <= k < |vec| && Covers(vec[k], p)
  }

  lemma CoveredByOneMore(vec: seq<DataChannel>, d: DataChannel, p: nat)
    ensures Covered(vec + [d], p) <==> Covered(vec, p) || Covers(d, p)
  {
    hide Covers;
    var vec' := vec + [d];
    if Covered(vec, p) {
      var k :| 0 <= k < |vec| && Covers(vec[k], p);
      assert Covers(vec'[k], p);
    }
    if Covers(d, p) {
      assert Covers(vec'[|vec|], p);
    }
  }

  /** The channels tile `[32, 32 + spi)`: each byte there is in a channel, and no byte outside is. */
  lemma {:induction false} ChannelsTile(config: seq<byte>, n: nat, p: nat)
    requires n <= |config|
    ensures Covered(Channels(config, n), p) <==> 32 <= p < 32 + CountersAt(config, n).spiCount
    decreases n
  {
    hide ChannelFor, Size, Covered;
    if n == 0 {
      NothingCovered(p);
    } else {
      ChannelsTile(config, n - 1, p);
      if HasChannel(config[n - 1]) {
        var c := CountersAt(config, n - 1);
        AdvanceBySize(config[n - 1], c, n - 1);
        CoveredByOneMore(Channels(config, n - 1), ChannelFor(config[n - 1], c, n - 1), p);
      }
    }
  }

  lemma NothingCovered(p: nat)
    ensures !Covered([], p)
  {
  }

  /** No byte of the SPI buffer is in two channels. */
  lemma CoveredOnce(vec: seq<DataChannel>, j: nat, k: nat, p: nat)
    requires LaidOut(vec) && j < |vec| && k < |vec| && Covers(vec[j], p) && Covers(vec[k], p)
    ensures j == k
  {
    assert j < k ==> !Apart(vec[j], vec[k]);
    assert k < j ==> !Apart(vec[k], vec[j]);
  }

  /** Thirty-two analogue output modules fill their area to the last word. */
  lemma {:induction false} AnalogueOutputsFill(config: seq<byte>, n: nat)
    requires n <= |config| && forall i :: 0 <= i < n ==> config[i] == MODULE_AO
    ensures 2 * CountersAt(config, n).aoCount == 16 * n
    ensures n == MODULE_MAX_NUM ==> 2 * CountersAt(config, n).aoCount == AreaSize(SPI_MODULE_AO)
    decreases n
  {
    if n > 0 {
      AnalogueOutputsFill(config, n - 1);
    }
  }

  // ----- byte order

  /** The other byte of the same word. */
  function SwapIndex(i: nat): nat {
    if i % 2 == 0 then i + 1 else i - 1
  }

  /** The word at byte `at`, in the memory of the little-endian host and on the wire. */
  function HostWord(s: seq<byte>, at: nat): word
    requires at + 1 < |s|
  {
    Word(s[at + 1], s[at])
  }

  function WireWord(s: seq<byte>, at: nat): word
    requires at + 1 < |s|
  {
    Word(s[at], s[at + 1])
  }
}
