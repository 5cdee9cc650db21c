/**
 Corrupted frames on an RTU line, seen from the two ends: as long as the bytes that tell the length of a message
 arrive, a frame that the CRC exposes is read to its end, changes nothing at the server, and fails the client's
 call.
 */
module Corruption {
  import opened Bytes
  import opened Crc
  import opened CrcDetection
  import opened CrcDistance
  import opened Protocol
  import opened Receiver
  import opened ServerModel
  import opened ClientModel
  import opened EndToEnd
  import opened Runs

  /** `f'` is `f` with one to three flipped bits, or with some of sixteen consecutive bits flipped. */
  ghost predicate Corrupted(f: seq<byte>, f': seq<byte>, p: nat) {
    && |f'| == |f| <= 256 && f' != f
    && (1 <= |Flips(Error(f, f'))| <= 3 || Burst(Error(f, f'), p))
  }

  lemma CorruptedIsExposed(f: seq<byte>, f': seq<byte>, p: nat)
    requires Corrupted(f, f', p) && IntegrityOk(f)
    ensures !IntegrityOk(f')
  {
    hide Flips, Burst, IntegrityOk;
    if Burst(Error(f, f'), p) {
      BurstDetected(f, f', p);
    } else {
      ThreeFlipsDetected(f, f');
    }
  }

  /** Function code and byte count, which tell the length of a message, are the same. */
  predicate SameLengthBytes(kind: Kind, f: seq<byte>, f': seq<byte>) {
    && 2 <= |f| == |f'| && f'[1] == f[1]
    && (CountAt(kind, f[1]) != 0 && 1 + CountAt(kind, f[1]) < |f| ==>
          f'[1 + CountAt(kind, f[1])] == f[1 + CountAt(kind, f[1])])
  }

  lemma ReadToTheEnd(kind: Kind, slave: byte, pdu: seq<byte>, f': seq<byte>, rest: seq<byte>, p: nat)
    requires Complete(kind, pdu) && |pdu| <= 253
    requires var f := Frame(Rtu, 0, slave, pdu);
             Corrupted(f, f', p) && SameLengthBytes(kind, f, f')
    ensures Receive(Rtu, kind, f' + rest) == Reception(Err(BadCrc), |f'|)
  {
    hide Crc16, Corrupted;
    var f := Frame(Rtu, 0, slave, pdu);
    FrameParts(Rtu, 0, slave, pdu);
    CorruptedIsExposed(f, f', p);
    SizeOfCorrupted(f, f', p);
    var s := f' + rest;
    assert f[1] == pdu[0] && (forall i :: 0 <= i < |pdu| ==> f[1 + i] == pdu[i]);
    assert s[..|f'|] == f' && s[1] == f'[1];
    LengthTold(kind, pdu, s[1..]);
  }

  lemma SizeOfCorrupted(f: seq<byte>, f': seq<byte>, p: nat)
    requires Corrupted(f, f', p)
    ensures |f'| == |f| <= 256
  {
  }

  lemma LengthTold(kind: Kind, pdu: seq<byte>, s: seq<byte>)
    requires Complete(kind, pdu) && |pdu| <= |s| && s[0] == pdu[0]
    requires CountAt(kind, pdu[0]) != 0 ==> s[CountAt(kind, pdu[0])] == pdu[CountAt(kind, pdu[0])]
    ensures MetaKnown(kind, s) && PduLength(kind, s) == |pdu|
  {
  }

  /** A corrupted request: the server changes no table and sends nothing. */
  lemma CorruptedRequestIgnored(serverSlave: byte, t: Tables, slave: byte, r: Request, f': seq<byte>, p: nat)
    requires !TooMany(r)
    requires var f := RequestFrame(Rtu, 0, slave, r);
             Corrupted(f, f', p) && SameLengthBytes(Indication, f, f')
    ensures Servable(Rtu, t, f') && ServerTurn(Rtu, serverSlave, t, f') == (t, [], [])
  {
    hide Crc16, RequestPdu, Complete, Corrupted, SameLengthBytes, Receive;
    RequestIsComplete(r);
    ReadToTheEnd(Indication, slave, RequestPdu(r), f', [], p);
    assert f' + [] == f';
  }

  /** A corrupted answer: the client's call fails. */
  lemma CorruptedAnswerFails(slave: byte, r: Request, rsp: seq<byte>, f': seq<byte>, p: nat)
    requires !TooMany(r) && Complete(Confirmation, rsp) && |rsp| <= 252
    requires var f := Frame(Rtu, 0, slave, rsp);
             Corrupted(f, f', p) && SameLengthBytes(Confirmation, f, f')
    ensures var req := RequestFrame(Rtu, 0, slave, r);
            Rtu.HeaderLength() <= |req| && ClientResult(Rtu, r, req, f') == Err(BadCrc)
  {
    hide Crc16, RequestPdu, Complete, Corrupted, SameLengthBytes, Receive;
    RequestIsComplete(r);
    FrameParts(Rtu, 0, slave, RequestPdu(r));
    ReadToTheEnd(Confirmation, slave, rsp, f', [], p);
    assert f' + [] == f';
  }
}
