/**
 What the channels carry between shared memory and the SPI buffers, on values: one channel after the other,
 the later ones over the earlier ones.
 */
module SpiTransfer {
  import opened Bytes
  import opened SpiLayout

  const MODULE_STATUS_OK: byte := 3

  /** A channel moves from shared memory to the SPI buffer, or the other way. */
  predicate IsOutput(c: DataChannel) {
    c.kind == SPI_MODULE_DO || c.kind == SPI_MODULE_AO
  }

  /** Where byte `i` of one end of a channel is found at the other end. */
  function Crossed(c: DataChannel, i: nat): nat {
    if c.kind == SPI_MODULE_AI || c.kind == SPI_MODULE_AO then SwapIndex(i) else i
  }

  /** The module of the channel reported that it is well. */
  predicate Ok(c: DataChannel, rx: seq<byte>) {
    c.status < |rx| && rx[c.status] == MODULE_STATUS_OK
  }

  /** Byte `p` of an SPI buffer belongs to an active output channel. */
  predicate OutputOwned(vec: seq<DataChannel>, rx: seq<byte>, p: nat) {
    exists k :: 0 <= k < |vec| && IsOutput(vec[k]) && Ok(vec[k], rx) && Covers(vec[k], p)
  }

  /** Byte `p` of the input area of a kind belongs to an active channel. */
  predicate InputOwned(vec: seq<DataChannel>, rx: seq<byte>, kind: byte, p: nat) {
    exists k :: 0 <= k < |vec| && vec[k].kind == kind && Ok(vec[k], rx) && Feeds(vec[k], p)
  }

  /** Byte `p` of a shared-memory area is in the range of the channel. */
  predicate Feeds(c: DataChannel, p: nat) {
    c.source <= p < c.source + Size(c.kind)
  }

  /** The SPI bytes of an output channel are those of its area, crossed. */
  ghost predicate SentBy(c: DataChannel, tx: seq<byte>, area: seq<byte>) {
    && c.sink + Size(c.kind) <= |tx| && c.source + Size(c.kind) <= |area|
    && forall p: nat :: Covers(c, p) ==> tx[p] == area[c.source + Crossed(c, p - c.sink)]
  }

  /** The area of an input channel holds its SPI bytes, crossed. */
  ghost predicate ReceivedBy(c: DataChannel, area: seq<byte>, rx: seq<byte>) {
    && c.sink + Size(c.kind) <= |rx| && c.source + Size(c.kind) <= |area|
    && forall p: nat :: Feeds(c, p) ==> area[p] == rx[c.sink + Crossed(c, p - c.source)]
  }

  /** Output words leave high byte first, and keep their values. */
  lemma SentWords(c: DataChannel, tx: seq<byte>, area: seq<byte>, i: nat)
    requires c.kind == SPI_MODULE_AO && SentBy(c, tx, area) && i < 8
    ensures WireWord(tx, c.sink + 2 * i) == HostWord(area, c.source + 2 * i)
  {
    assert Covers(c, c.sink + 2 * i) && Covers(c, c.sink + 2 * i + 1);
    assert SwapIndex(2 * i) == 2 * i + 1 && SwapIndex(2 * i + 1) == 2 * i;
  }

  lemma ReceivedWords(c: DataChannel, area: seq<byte>, rx: seq<byte>, i: nat)
    requires c.kind == SPI_MODULE_AI && ReceivedBy(c, area, rx) && i < 16
    ensures HostWord(area, c.source + 2 * i) == WireWord(rx, c.sink + 2 * i)
  {
    assert Feeds(c, c.source + 2 * i) && Feeds(c, c.source + 2 * i + 1);
    assert SwapIndex(2 * i) == 2 * i + 1 && SwapIndex(2 * i + 1) == 2 * i;
  }

  /** Bytes sent by an analogue output and read back by an analogue input come back as they were. */
  lemma Loopback(c: DataChannel, d: DataChannel, wire: seq<byte>, area: seq<byte>, area': seq<byte>, i: nat)
    requires c.kind == SPI_MODULE_AO && d.kind == SPI_MODULE_AI && c.sink == d.sink && i < 16
    requires SentBy(c, wire, area) && ReceivedBy(d, area', wire)
    ensures area'[d.source + i] == area[c.source + i]
  {
    assert Feeds(d, d.source + i) && Covers(c, c.sink + SwapIndex(i));
    assert SwapIndex(SwapIndex(i)) == i;
  }

  predicate AllInBounds(vec: seq<DataChannel>) {
    forall k :: 0 <= k < |vec| ==> InBounds(vec[k])
  }

  /** The bytes that reach the far end of a channel. */
  function Carried(src: seq<byte>, at: nat, c: DataChannel): (r: seq<byte>)
    requires InBounds(c) && at + Size(c.kind) <= |src|
    ensures |r| == Size(c.kind)
  {
    seq(Size(c.kind), i requires 0 <= i < Size(c.kind) => src[at + Crossed(c, i)])
  }

  /** The two output areas. */
  datatype Outputs = Outputs(dOut: seq<byte>, aOut: seq<byte>) {
    function Area(c: DataChannel): seq<byte> {
      if c.kind == SPI_MODULE_DO then dOut else aOut
    }

    predicate Valid() {
      |dOut| == 512 && |aOut| == 512
    }
  }

  /** `write` on values. */
  function Written(tx: seq<byte>, c: DataChannel, rx: seq<byte>, out: Outputs): (r: seq<byte>)
    requires InBounds(c) && |tx| == SPI_BUF_LEN && out.Valid()
    ensures |r| == |tx|
  {
    if IsOutput(c) && Ok(c, rx) then Splice(tx, c.sink, Carried(out.Area(c), c.source, c)) else tx
  }

  /** `writeAll` on values. */
  function AllWritten(tx: seq<byte>, vec: seq<DataChannel>, rx: seq<byte>, out: Outputs): (r: seq<byte>)
    requires AllInBounds(vec) && |tx| == SPI_BUF_LEN && out.Valid()
    ensures |r| == |tx|
    decreases |vec|
  {
    if vec == [] then tx
    else Written(AllWritten(tx, vec[..|vec| - 1], rx, out), vec[|vec| - 1], rx, out)
  }

  predicate Fills(c: DataChannel, rx: seq<byte>, kind: byte) {
    !IsOutput(c) && c.kind == kind && Ok(c, rx)
  }

  /** `read` on values, for the area of one kind. */
  function Filled(area: seq<byte>, c: DataChannel, rx: seq<byte>, kind: byte): (r: seq<byte>)
    requires InBounds(c) && |rx| == SPI_BUF_LEN && |area| == AreaSize(kind)
    ensures |r| == |area|
  {
    if Fills(c, rx, kind) then Splice(area, c.source, Carried(rx, c.sink, c)) else area
  }

  /** `readAll` on values, for the area of one kind. */
  function AllFilled(area: seq<byte>, vec: seq<DataChannel>, rx: seq<byte>, kind: byte): (r: seq<byte>)
    requires AllInBounds(vec) && |rx| == SPI_BUF_LEN && |area| == AreaSize(kind)
    ensures |r| == |area|
    decreases |vec|
  {
    if vec == [] then area
    else Filled(AllFilled(area, vec[..|vec| - 1], rx, kind), vec[|vec| - 1], rx, kind)
  }

  // ----- one channel

  lemma WrittenIsSent(tx: seq<byte>, c: DataChannel, rx: seq<byte>, out: Outputs)
    requires InBounds(c) && |tx| == SPI_BUF_LEN && out.Valid()
    ensures IsOutput(c) && Ok(c, rx) ==> SentBy(c, Written(tx, c, rx, out), out.Area(c))
    ensures forall p: nat :: p < |tx| && !(IsOutput(c) && Ok(c, rx) && Covers(c, p)) ==>
              Written(tx, c, rx, out)[p] == tx[p]
  {
  }

  lemma FilledIsReceived(area: seq<byte>, c: DataChannel, rx: seq<byte>, kind: byte)
    requires InBounds(c) && |rx| == SPI_BUF_LEN && |area| == AreaSize(kind)
    ensures Fills(c, rx, kind) ==> ReceivedBy(c, Filled(area, c, rx, kind), rx)
    ensures forall p: nat :: p < |area| && !(Fills(c, rx, kind) && Feeds(c, p)) ==>
              Filled(area, c, rx, kind)[p] == area[p]
  {
  }

  // ----- all channels

  /** When the channels are laid out, every output channel whose module is well is sent. */
  lemma {:induction false} AllSent(tx: seq<byte>, vec: seq<DataChannel>, rx: seq<byte>, out: Outputs, k: nat)
    requires LaidOut(vec) && |tx| == SPI_BUF_LEN && out.Valid()
    requires k < |vec| && IsOutput(vec[k]) && Ok(vec[k], rx)
    ensures AllInBounds(vec) && SentBy(vec[k], AllWritten(tx, vec, rx, out), out.Area(vec[k]))
    decreases |vec|
  {
    hide SentBy, Written, Covers, Ok;
    var n := |vec| - 1;
    var before := AllWritten(tx, vec[..n], rx, out);
    WrittenIsSent(before, vec[n], rx, out);
    if k < n {
      AllSent(tx, vec[..n], rx, out, k);
      StillSent(vec[k], vec[n], before, AllWritten(tx, vec, rx, out), out.Area(vec[k]));
    }
  }

  /** Bytes outside the active output channels are as before, whatever the channels. */
  lemma {:induction false} UnownedKept(tx: seq<byte>, vec: seq<DataChannel>, rx: seq<byte>, out: Outputs, p: nat)
    requires AllInBounds(vec) && |tx| == SPI_BUF_LEN && out.Valid() && p < |tx|
    requires !OutputOwned(vec, rx, p)
    ensures AllWritten(tx, vec, rx, out)[p] == tx[p]
    decreases |vec|
  {
    hide Written, Covers, Ok;
    if vec != [] {
      var n := |vec| - 1;
      WrittenIsSent(AllWritten(tx, vec[..n], rx, out), vec[n], rx, out);
      UnownedKept(tx, vec[..n], rx, out, p);
    }
  }

  lemma {:induction false} AllReceived(area: seq<byte>, vec: seq<DataChannel>, rx: seq<byte>, kind: byte, k: nat)
    requires LaidOut(vec) && |rx| == SPI_BUF_LEN && |area| == AreaSize(kind)
    requires k < |vec| && Fills(vec[k], rx, kind)
    ensures AllInBounds(vec) && ReceivedBy(vec[k], AllFilled(area, vec, rx, kind), rx)
    decreases |vec|
  {
    hide ReceivedBy, Filled, Feeds, Ok;
    var n := |vec| - 1;
    var before := AllFilled(area, vec[..n], rx, kind);
    FilledIsReceived(before, vec[n], rx, kind);
    if k < n {
      AllReceived(area, vec[..n], rx, kind, k);
      StillReceived(vec[k], vec[n], before, AllFilled(area, vec, rx, kind), rx);
    }
  }

  lemma {:induction false} UnfedKept(area: seq<byte>, vec: seq<DataChannel>, rx: seq<byte>, kind: byte, p: nat)
    requires AllInBounds(vec) && |rx| == SPI_BUF_LEN && |area| == AreaSize(kind) && p < |area|
    requires !InputOwned(vec, rx, kind, p)
    ensures AllFilled(area, vec, rx, kind)[p] == area[p]
    decreases |vec|
  {
    hide Filled, Feeds, Ok;
    if vec != [] {
      var n := |vec| - 1;
      FilledIsReceived(AllFilled(area, vec[..n], rx, kind), vec[n], rx, kind);
      UnfedKept(area, vec[..n], rx, kind, p);
    }
  }

  // ----- channels that are there twice

  lemma {:induction false} WrittenInTwoParts(tx: seq<byte>, a: seq<DataChannel>, b: seq<DataChannel>, rx: seq<byte>,
                                             out: Outputs)
    requires AllInBounds(a) && AllInBounds(b) && |tx| == SPI_BUF_LEN && out.Valid()
    ensures AllWritten(tx, a + b, rx, out) == AllWritten(AllWritten(tx, a, rx, out), b, rx, out)
    decreases |b|
  {
    hide Written;
    if b == [] {
      assert a + b == a;
    } else {
      assert (a + b)[..|a + b| - 1] == a + b[..|b| - 1];
      WrittenInTwoParts(tx, a, b[..|b| - 1], rx, out);
    }
  }

  lemma SentAgain(c: DataChannel, tx: seq<byte>, rx: seq<byte>, out: Outputs)
    requires InBounds(c) && |tx| == SPI_BUF_LEN && out.Valid()
    requires IsOutput(c) && Ok(c, rx) ==> SentBy(c, tx, out.Area(c))
    ensures Written(tx, c, rx, out) == tx
  {
    if IsOutput(c) && Ok(c, rx) {
      var data := Carried(out.Area(c), c.source, c);
      forall p | 0 <= p < |tx|
        ensures Splice(tx, c.sink, data)[p] == tx[p]
      {
        if c.sink <= p < c.sink + |data| {
          assert Covers(c, p);
        }
      }
    }
  }

  lemma {:induction false} SentStays(tx: seq<byte>, vec: seq<DataChannel>, rx: seq<byte>, out: Outputs)
    requires AllInBounds(vec) && |tx| == SPI_BUF_LEN && out.Valid()
    requires forall k :: 0 <= k < |vec| && IsOutput(vec[k]) && Ok(vec[k], rx) ==> SentBy(vec[k], tx, out.Area(vec[k]))
    ensures AllWritten(tx, vec, rx, out) == tx
    decreases |vec|
  {
    hide Written, SentBy, Ok;
    if vec != [] {
      SentStays(tx, vec[..|vec| - 1], rx, out);
      SentAgain(vec[|vec| - 1], tx, rx, out);
    }
  }

  /** Channels that a second `init` has added once more change nothing. */
  lemma TwiceIsOnce(tx: seq<byte>, vec: seq<DataChannel>, rx: seq<byte>, out: Outputs)
    requires LaidOut(vec) && |tx| == SPI_BUF_LEN && out.Valid()
    ensures AllInBounds(vec) && AllInBounds(vec + vec)
    ensures AllWritten(tx, vec + vec, rx, out) == AllWritten(tx, vec, rx, out)
  {
    hide SentBy, Written, Ok;
    var once := AllWritten(tx, vec, rx, out);
    forall k | 0 <= k < |vec| && IsOutput(vec[k]) && Ok(vec[k], rx)
      ensures SentBy(vec[k], once, out.Area(vec[k]))
    {
      AllSent(tx, vec, rx, out, k);
    }
    WrittenInTwoParts(tx, vec, vec, rx, out);
    SentStays(once, vec, rx, out);
  }

  /** Filling the SPI range of a later channel leaves what an earlier one sent. */
  lemma StillSent(c: DataChannel, d: DataChannel, tx: seq<byte>, tx': seq<byte>, area: seq<byte>)
    requires Apart(c, d) && SentBy(c, tx, area) && |tx'| == |tx|
    requires forall p :: 0 <= p < |tx| && !Covers(d, p) ==> tx'[p] == tx[p]
    ensures SentBy(c, tx', area)
  {
  }

  /** Filling the range of a later channel leaves what an earlier one received. */
  lemma StillReceived(c: DataChannel, d: DataChannel, area: seq<byte>, area': seq<byte>, rx: seq<byte>)
    requires Apart(c, d) && ReceivedBy(c, area, rx) && |area'| == |area|
    requires forall p :: 0 <= p < |area| && !(d.kind == c.kind && Feeds(d, p)) ==> area'[p] == area[p]
    ensures ReceivedBy(c, area', rx)
  {
  }
}
