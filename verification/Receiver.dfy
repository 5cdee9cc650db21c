/**
 `receive_msg`: a message is read from a stream in three steps (up to the function code, the meta data, the
 rest), each step in as many pieces as `recv` likes.  `Receive` says what is read in terms of the byte
 stream alone.
 */
module Receiver {
  import opened Bytes
  import opened Crc
  import opened Protocol

  datatype Kind = Indication | Confirmation

  /** `compute_meta_length_after_function`. */
  function MetaLength(kind: Kind, functionCode: byte): nat {
    match kind
    case Indication =>
      if functionCode <= FC_WRITE_SINGLE_REGISTER then 4
      else if functionCode == FC_WRITE_MULTIPLE_COILS || functionCode == FC_WRITE_MULTIPLE_REGISTERS then 5
      else if functionCode == FC_WRITE_AND_READ_REGISTERS then 9
      else 0
    case Confirmation =>
      if functionCode == FC_WRITE_SINGLE_COIL || functionCode == FC_WRITE_SINGLE_REGISTER ||
         functionCode == FC_WRITE_MULTIPLE_COILS || functionCode == FC_WRITE_MULTIPLE_REGISTERS
      then 4 else 1
  }

  /** Where in a PDU the byte count of the data lies, if the function has any data. */
  function CountAt(kind: Kind, functionCode: byte): (at: nat)
    ensures at <= MetaLength(kind, functionCode)
  {
    match kind
    case Indication =>
      if functionCode == FC_WRITE_MULTIPLE_COILS || functionCode == FC_WRITE_MULTIPLE_REGISTERS then 5
      else if functionCode == FC_WRITE_AND_READ_REGISTERS then 9
      else 0
    case Confirmation =>
      if functionCode <= FC_READ_INPUT_REGISTERS || functionCode == FC_REPORT_SLAVE_ID ||
         functionCode == FC_WRITE_AND_READ_REGISTERS
      then 1 else 0
  }

  /** `compute_data_length_after_meta`, without the checksum: 0, or the byte count that the PDU announces. */
  function DataLength(kind: Kind, pdu: seq<byte>): nat
    requires 1 <= |pdu| && MetaLength(kind, pdu[0]) < |pdu|
  {
    var at := CountAt(kind, pdu[0]);
    if at == 0 then 0 else pdu[at]
  }

  // ----- what a PDU says about its own length

  predicate MetaKnown(kind: Kind, pdu: seq<byte>) {
    1 <= |pdu| && MetaLength(kind, pdu[0]) < |pdu|
  }

  function PduLength(kind: Kind, pdu: seq<byte>): nat
    requires MetaKnown(kind, pdu)
  {
    1 + MetaLength(kind, pdu[0]) + DataLength(kind, pdu)
  }

  /** `pdu` is exactly as long as it announces. */
  predicate Complete(kind: Kind, pdu: seq<byte>) {
    MetaKnown(kind, pdu) && PduLength(kind, pdu) == |pdu|
  }

  /** The first bytes of a PDU already tell its length. */
  lemma LengthFromPrefix(kind: Kind, pdu: seq<byte>, n: nat)
    requires n <= |pdu| && MetaKnown(kind, pdu[..n])
    ensures MetaKnown(kind, pdu) && PduLength(kind, pdu) == PduLength(kind, pdu[..n])
  {
  }

  // ----- the reference reader

  datatype Reception = Reception(result: Result<seq<byte>>, taken: nat)

  /** The outcome of reading one message from the stream `s`, and how many bytes of it are consumed. */
  function Receive(be: Backend, kind: Kind, s: seq<byte>): (r: Reception)
    ensures r.taken <= |s|
    ensures r.result.Ok? ==> r.result.value == s[..r.taken]
  {
    var h := be.HeaderLength();
    if |s| <= h || !MetaKnown(kind, s[h..]) then
      Reception(Err(NoAnswer), |s|)
    else
      var total := h + PduLength(kind, s[h..]) + be.ChecksumLength();
      if be.MaxAduLength() < total then
        Reception(Err(BadData), h + 1 + MetaLength(kind, s[h]))
      else if |s| < total then
        Reception(Err(NoAnswer), |s|)
      else if CheckIntegrity(be, s[..total]) then
        Reception(Ok(s[..total]), total)
      else
        Reception(Err(BadCrc), total)
  }

  /** A received message fits the buffers and frames a complete PDU. */
  lemma ReceivedIsComplete(be: Backend, kind: Kind, s: seq<byte>)
    requires Receive(be, kind, s).result.Ok?
    ensures var msg := Receive(be, kind, s).result.value;
            && be.HeaderLength() + be.ChecksumLength() < |msg| <= be.MaxAduLength() <= MAX_MESSAGE_LENGTH
            && Complete(kind, PduOf(be, msg))
            && CheckIntegrity(be, msg)
  {
    var msg := Receive(be, kind, s).result.value;
    var h := be.HeaderLength();
    var pdu := PduOf(be, msg);
    assert pdu == s[h..][..|pdu|];
  }

  /** Whatever arrives, no more is read than the largest message of the backend. */
  lemma TakenFitsAdu(be: Backend, kind: Kind, s: seq<byte>)
    ensures Receive(be, kind, s).taken <= be.MaxAduLength()
  {
    var h := be.HeaderLength();
    if h < |s| && !MetaKnown(kind, s[h..]) {
      assert |s[h..]| <= MetaLength(kind, s[h..][0]);
    }
  }

  /** What a buffer still holds behind the message received from `s`. */
  function Untouched(be: Backend, kind: Kind, s: seq<byte>, buf: seq<byte>): seq<byte>
    requires MAX_MESSAGE_LENGTH <= |buf|
  {
    TakenFitsAdu(be, kind, s);
    buf[Receive(be, kind, s).taken..]
  }

  /** A frame is read back whole, and what follows it on the stream is left alone. */
  lemma FrameIsReceived(be: Backend, kind: Kind, tid: word, slave: byte, pdu: seq<byte>, rest: seq<byte>)
    requires Complete(kind, pdu)
    requires be.HeaderLength() + |pdu| + be.ChecksumLength() <= be.MaxAduLength()
    ensures var f := Frame(be, tid, slave, pdu);
            Receive(be, kind, f + rest) == Reception(Ok(f), |f|)
  {
    var f := Frame(be, tid, slave, pdu);
    var s := f + rest;
    FrameParts(be, tid, slave, pdu);
    MessageIsReceived(be, kind, f, rest);
  }

  lemma MessageIsReceived(be: Backend, kind: Kind, f: seq<byte>, rest: seq<byte>)
    requires be.HeaderLength() + be.ChecksumLength() <= |f| <= be.MaxAduLength()
    requires Complete(kind, PduOf(be, f)) && CheckIntegrity(be, f)
    ensures Receive(be, kind, f + rest) == Reception(Ok(f), |f|)
  {
    var pdu := PduOf(be, f);
    var h := be.HeaderLength();
    var s := f + rest;
    assert s[h..][..|pdu|] == pdu;
    LengthFromPrefix(kind, s[h..], |pdu|);
    assert s[..|f|] == f;
  }

  /** A message that arrives only in part is not received, and what there is of it is gone. */
  lemma CutIsNotReceived(be: Backend, kind: Kind, f: seq<byte>, n: nat)
    requires n < |f| && be.HeaderLength() + be.ChecksumLength() <= |f| <= be.MaxAduLength()
    requires Complete(kind, PduOf(be, f))
    ensures Receive(be, kind, f[..n]) == Reception(Err(NoAnswer), n)
  {
    var h := be.HeaderLength();
    var s := f[..n];
    if h < n && MetaKnown(kind, s[h..]) {
      var pdu := PduOf(be, f);
      assert f[h..][..|pdu|] == pdu && f[h..][..n - h] == s[h..];
      LengthFromPrefix(kind, f[h..], |pdu|);
      LengthFromPrefix(kind, f[h..], n - h);
    }
  }

  /** The reader looks no further than the bytes it takes. */
  lemma ReceiveIsLocal(be: Backend, kind: Kind, s: seq<byte>, more: seq<byte>)
    requires Receive(be, kind, s).result != Err(NoAnswer)
    ensures Receive(be, kind, s + more) == Receive(be, kind, s)
  {
    var h := be.HeaderLength();
    assert (s + more)[h..][..|s| - h] == s[h..];
    LengthFromPrefix(kind, (s + more)[h..], |s| - h);
    var total := h + PduLength(kind, s[h..]) + be.ChecksumLength();
    if total <= |s| {
      assert (s + more)[..total] == s[..total];
    }
  }

  /** `_modbus_rtu_check_integrity` and `_modbus_tcp_check_integrity`. */
  method CheckMessage(be: Backend, msg: array<byte>, msgLength: nat) returns (ok: bool)
    requires be.ChecksumLength() <= msgLength <= msg.Length
    ensures ok == CheckIntegrity(be, msg[..msgLength])
  {
    match be
    case Tcp => ok := true;
    case Rtu =>
      var crcCalculated := Crc16Loop(msg, msgLength - 2);
      var crcReceived := Word(msg[msgLength - 2], msg[msgLength - 1]);
      assert msg[..msgLength][..msgLength - 2] == msg[..msgLength - 2];
      ok := crcCalculated == crcReceived;
  }

  // ----- many messages on one stream

  function Concat(frames: seq<seq<byte>>): seq<byte> {
    if frames == [] then [] else frames[0] + Concat(frames[1..])
  }

  /** The messages that `n` successive calls take from a stream. */
  function ReceiveMany(be: Backend, kind: Kind, s: seq<byte>, n: nat): seq<Result<seq<byte>>> {
    if n == 0 then []
    else
      var r := Receive(be, kind, s);
      [r.result] + ReceiveMany(be, kind, s[r.taken..], n - 1)
  }

  predicate WellFormed(be: Backend, kind: Kind, f: seq<byte>) {
    && be.HeaderLength() + be.ChecksumLength() <= |f| <= be.MaxAduLength()
    && Complete(kind, PduOf(be, f)) && CheckIntegrity(be, f)
  }

  function AllOk(frames: seq<seq<byte>>): seq<Result<seq<byte>>> {
    seq(|frames|, i requires 0 <= i < |frames| => Ok(frames[i]))
  }

  /** Back-to-back messages are split at the right boundaries. */
  lemma {:induction false} BackToBack(be: Backend, kind: Kind, frames: seq<seq<byte>>)
    requires forall i :: 0 <= i < |frames| ==> WellFormed(be, kind, frames[i])
    ensures ReceiveMany(be, kind, Concat(frames), |frames|) == AllOk(frames)
    decreases |frames|
  {
    hide Receive, Complete, CheckIntegrity;
    if frames != [] {
      var f, rest := frames[0], Concat(frames[1..]);
      MessageIsReceived(be, kind, f, rest);
      assert (f + rest)[|f|..] == rest;
      BackToBack(be, kind, frames[1..]);
      assert AllOk(frames) == [Ok(f)] + AllOk(frames[1..]);
    }
  }

  // ----- the incoming side of a connection

  /** Bytes on their way to one reader.  `Recv` hands over any nonempty part of what was asked for. */
  class Stream {
    var pending: seq<byte>

    constructor (bytes: seq<byte>)
      ensures pending == bytes
    {
      pending := bytes;
    }

    /** `recv`: 0 when nothing more will come, else between 1 and `length` bytes. */
    method Recv(buf: array<byte>, at: nat, length: nat) returns (rc: nat)
      requires 0 < length && at + length <= buf.Length
      modifies this, buf
      ensures rc <= length && rc <= |old(pending)|
      ensures rc == 0 <==> old(pending) == []
      ensures pending == old(pending)[rc..]
      ensures buf[..at + rc] == old(buf[..at]) + old(pending)[..rc]
      ensures buf[at + rc..] == old(buf[at + rc..])
    {
      if pending == [] {
        rc := 0;
      } else {
        rc :| 1 <= rc <= length && rc <= |pending|;
        forall i | 0 <= i < rc {
          buf[at + i] := pending[i];
        }
        pending := pending[rc..];
      }
    }
  }

  datatype Step = FunctionStep | MetaStep | DataStep

  function StepsLeft(step: Step): nat {
    match step
    case FunctionStep => 2
    case MetaStep => 1
    case DataStep => 0
  }

  lemma TakenPrefix(s: seq<byte>, k: nat, n: nat)
    requires k + n <= |s|
    ensures s[..k] + s[k..][..n] == s[..k + n] && s[k..][n..] == s[k + n..]
  {
  }

  lemma TailKept(now: seq<byte>, was: seq<byte>, k: nat, n: nat)
    requires |now| == |was| && k + n <= |was| && now[k + n..] == was[k..][n..]
    ensures now[k + n..] == was[k + n..]
  {
  }

  /** What a step of `receive_msg` aims for: the length the message must reach before the next step. */
  ghost predicate Reading(be: Backend, kind: Kind, s: seq<byte>, step: Step, msgLength: nat, lengthToRead: nat) {
    var h := be.HeaderLength();
    && msgLength <= |s|
    && match step
       case FunctionStep => msgLength + lengthToRead == h + 1
       case MetaStep => h < msgLength && msgLength + lengthToRead == h + 1 + MetaLength(kind, s[h])
       case DataStep =>
         && h < msgLength && MetaKnown(kind, s[h..])
         && msgLength + lengthToRead == h + PduLength(kind, s[h..]) + be.ChecksumLength() <= be.MaxAduLength()
  }

  lemma ReadingFits(be: Backend, kind: Kind, s: seq<byte>, step: Step, msgLength: nat, lengthToRead: nat)
    requires Reading(be, kind, s, step, msgLength, lengthToRead)
    ensures msgLength + lengthToRead <= MAX_MESSAGE_LENGTH
  {
  }

  lemma ReadingMore(be: Backend, kind: Kind, s: seq<byte>, step: Step, msgLength: nat, lengthToRead: nat, n: nat)
    requires Reading(be, kind, s, step, msgLength, lengthToRead)
    requires n <= lengthToRead && msgLength + n <= |s|
    ensures Reading(be, kind, s, step, msgLength + n, lengthToRead - n)
  {
  }

  lemma StreamEnds(be: Backend, kind: Kind, s: seq<byte>, step: Step, lengthToRead: nat)
    requires Reading(be, kind, s, step, |s|, lengthToRead) && 0 < lengthToRead
    ensures Receive(be, kind, s) == Reception(Err(NoAnswer), |s|)
  {
  }

  lemma MessageEnds(be: Backend, kind: Kind, s: seq<byte>, msgLength: nat)
    requires Reading(be, kind, s, DataStep, msgLength, 0)
    ensures Receive(be, kind, s) ==
            Reception(if CheckIntegrity(be, s[..msgLength]) then Ok(s[..msgLength]) else Err(BadCrc), msgLength)
  {
  }

  /** The `switch (step)` of `receive_msg`, entered when a step has read all it asked for. */
  method NextStep(be: Backend, kind: Kind, msg: array<byte>, msgLength: nat, step: Step, ghost s: seq<byte>)
    returns (next: Step, lengthToRead: nat, tooMany: bool)
    requires msgLength <= msg.Length && Reading(be, kind, s, step, msgLength, 0)
    requires msg[..msgLength] == s[..msgLength]
    ensures tooMany ==> Receive(be, kind, s) == Reception(Err(BadData), msgLength)
    ensures !tooMany ==> Reading(be, kind, s, next, msgLength, lengthToRead)
    ensures !tooMany && next != DataStep ==> 0 < lengthToRead
    ensures !tooMany ==> StepsLeft(next) < StepsLeft(step) || (step == next == DataStep && lengthToRead == 0)
  {
    hide Crc16;
    var h := be.HeaderLength();
    next, lengthToRead, tooMany := step, 0, false;
    if step == FunctionStep {
      lengthToRead := MetaLength(kind, msg[h]);
      if lengthToRead != 0 {
        next := MetaStep;
        return;
      }
    }
    if step != DataStep {
      SamePart(msg[..], s, h, msgLength);
      LengthFromPrefix(kind, s[h..], msgLength - h);
      lengthToRead := DataLength(kind, msg[h..msgLength]) + be.ChecksumLength();
      next := DataStep;
      tooMany := be.MaxAduLength() < msgLength + lengthToRead;
    }
  }

  /**
   Everything that holds between two passes of the loop of `receive_msg`, `s` being the whole stream and `was`
   the buffer before the first pass.
   */
  ghost predicate MidMessage(be: Backend, kind: Kind, s: seq<byte>, inbox: Stream, msg: array<byte>, was: seq<byte>,
                             step: Step, msgLength: nat, lengthToRead: nat)
    reads inbox, msg
  {
    && |was| == msg.Length && msgLength <= msg.Length && msg[msgLength..] == was[msgLength..]
    && msgLength <= |s|
    && Reading(be, kind, s, step, msgLength, lengthToRead)
    && (step == DataStep || 0 < lengthToRead)
    && msgLength + lengthToRead <= MAX_MESSAGE_LENGTH <= msg.Length
    && inbox.pending == s[msgLength..]
    && msg[..msgLength] == s[..msgLength]
  }

  ghost predicate GaveUp(be: Backend, kind: Kind, s: seq<byte>, inbox: Stream, msg: array<byte>, was: seq<byte>,
                         msgLength: nat, e: Errno)
    reads inbox, msg
  {
    && msgLength <= msg.Length && msgLength <= |s|
    && |was| == msg.Length && msg[msgLength..] == was[msgLength..]
    && inbox.pending == s[msgLength..]
    && msg[..msgLength] == s[..msgLength]
    && Receive(be, kind, s) == Reception(Err(e), msgLength)
  }

  /** One pass of the loop of `receive_msg`. */
  method ReadPiece(be: Backend, inbox: Stream, msg: array<byte>, kind: Kind,
                   step: Step, oldLength: nat, toRead: nat, ghost s: seq<byte>, ghost was: seq<byte>)
    returns (next: Step, msgLength: nat, lengthToRead: nat, failure: Result<()>)
    requires MidMessage(be, kind, s, inbox, msg, was, step, oldLength, toRead) && 0 < toRead
    modifies inbox, msg
    ensures failure.Err? ==> GaveUp(be, kind, s, inbox, msg, was, msgLength, failure.error)
    ensures failure.Ok? ==> MidMessage(be, kind, s, inbox, msg, was, next, msgLength, lengthToRead)
    ensures failure.Ok? ==> StepsLeft(next) < StepsLeft(step) || (next == step && lengthToRead < toRead)
  {
    hide Receive, Reading;
    next, msgLength, lengthToRead, failure := step, oldLength, toRead, Ok(());
    var n := inbox.Recv(msg, msgLength, lengthToRead);
    if n == 0 {
      StreamEnds(be, kind, s, step, lengthToRead);
      failure := Err(NoAnswer);
      return;
    }
    TakenPrefix(s, msgLength, n);
    TailKept(msg[..], was, msgLength, n);
    ReadingMore(be, kind, s, step, msgLength, lengthToRead, n);
    msgLength := msgLength + n;
    lengthToRead := lengthToRead - n;
    if lengthToRead == 0 {
      var tooMany;
      next, lengthToRead, tooMany := NextStep(be, kind, msg, msgLength, step, s);
      if tooMany {
        failure := Err(BadData);
      } else {
        ReadingFits(be, kind, s, next, msgLength, lengthToRead);
      }
    }
  }

  /** `receive_msg`: whatever pieces `Recv` chooses, the outcome is that of `Receive` on the stream. */
  method ReceiveMsg(be: Backend, inbox: Stream, msg: array<byte>, kind: Kind) returns (rc: Result<nat>)
    requires MAX_MESSAGE_LENGTH <= msg.Length
    modifies inbox, msg
    ensures var r := Receive(be, kind, old(inbox.pending));
            && inbox.pending == old(inbox.pending)[r.taken..]
            && r.taken <= msg.Length && msg[..r.taken] == old(inbox.pending)[..r.taken]
            && msg[r.taken..] == old(msg[..])[r.taken..]
            && rc == (match r.result case Ok(m) => Ok(|m|) case Err(e) => Err(e))
  {
    ghost var s, was := inbox.pending, msg[..];
    var step, failure := FunctionStep, Ok(());
    var msgLength: nat, lengthToRead: nat := 0, be.HeaderLength() + 1;
    while lengthToRead != 0
      invariant MidMessage(be, kind, s, inbox, msg, was, step, msgLength, lengthToRead)
      decreases StepsLeft(step), lengthToRead
    {
      step, msgLength, lengthToRead, failure :=
        ReadPiece(be, inbox, msg, kind, step, msgLength, lengthToRead, s, was);
      if failure.Err? {
        return Err(failure.error);
      }
    }
    MessageEnds(be, kind, s, msgLength);
    var ok := CheckMessage(be, msg, msgLength);
    return if ok then Ok(msgLength) else Err(BadCrc);
  }
}
