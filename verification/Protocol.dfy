/** Function codes, limits, errors and message framing of the Modbus library, for its two backends. */
module Protocol {
  import opened Bytes
  import opened CrcDetection

  const FC_READ_COILS: byte := 0x01
  const FC_READ_DISCRETE_INPUTS: byte := 0x02
  const FC_READ_HOLDING_REGISTERS: byte := 0x03
  const FC_READ_INPUT_REGISTERS: byte := 0x04
  const FC_WRITE_SINGLE_COIL: byte := 0x05
  const FC_WRITE_SINGLE_REGISTER: byte := 0x06
  const FC_READ_EXCEPTION_STATUS: byte := 0x07
  const FC_WRITE_MULTIPLE_COILS: byte := 0x0F
  const FC_WRITE_MULTIPLE_REGISTERS: byte := 0x10
  const FC_REPORT_SLAVE_ID: byte := 0x11
  const FC_WRITE_AND_READ_REGISTERS: byte := 0x17

  const MAX_READ_BITS := 2000
  const MAX_WRITE_BITS := 1968
  const MAX_READ_REGISTERS := 125
  const MAX_WRITE_REGISTERS := 123
  const MAX_RW_WRITE_REGISTERS := 121

  const ILLEGAL_FUNCTION: byte := 1
  const ILLEGAL_DATA_ADDRESS: byte := 2
  const ILLEGAL_DATA_VALUE: byte := 3
  const EXCEPTION_MAX: byte := 12

  /** Size of the message buffers, enough for either backend. */
  const MAX_MESSAGE_LENGTH := 260

  /** The values of `errno` the library sets; `NoAnswer` stands for those of select and recv. */
  datatype Errno = ModbusException(code: byte) | BadCrc | BadData | BadExceptionCode | TooManyData | NoAnswer

  datatype Result<T> = Ok(value: T) | Err(error: Errno)

  /** The constants of `_modbus_rtu_backend` and `_modbus_tcp_backend`. */
  datatype Backend = Rtu | Tcp {
    function HeaderLength(): nat {
      if Rtu? then 1 else 7
    }

    function ChecksumLength(): nat {
      if Rtu? then 2 else 0
    }

    function MaxAduLength(): nat {
      if Rtu? then 256 else 260
    }
  }

  // ----- headers and whole messages

  /** `h` is the header of a message of transaction `tid` for `slave`; the MBAP length may still be junk. */
  predicate IsHeader(be: Backend, h: seq<byte>, tid: word, slave: byte) {
    && |h| == be.HeaderLength()
    && (be.Rtu? ==> h[0] == slave)
    && (be.Tcp? ==> h[0] == Hi(tid) && h[1] == Lo(tid) && h[2] == 0 && h[3] == 0 && h[6] == slave)
  }

  /** `send_msg_pre`: the CRC is appended, or the MBAP length filled in. */
  function Finish(be: Backend, m: seq<byte>): seq<byte>
    requires be.HeaderLength() <= |m| < 0x1_0000
  {
    if be.Rtu? then Sealed(m) else m[4 := Hi(|m| - 6)][5 := Lo(|m| - 6)]
  }

  /** The message that carries `pdu`. */
  function Frame(be: Backend, tid: word, slave: byte, pdu: seq<byte>): seq<byte>
    requires |pdu| < 0xFF00
  {
    match be
    case Rtu => Sealed([slave] + pdu)
    case Tcp => [Hi(tid), Lo(tid), 0, 0, Hi(|pdu| + 1), Lo(|pdu| + 1), slave] + pdu
  }

  /** `m` is a message without its checksum, whose MBAP length may still be junk. */
  predicate IsMessage(be: Backend, m: seq<byte>, tid: word, slave: byte, pdu: seq<byte>) {
    var h := be.HeaderLength();
    h <= |m| && IsHeader(be, m[..h], tid, slave) && m[h..] == pdu
  }

  lemma FinishIsFrame(be: Backend, m: seq<byte>, tid: word, slave: byte, pdu: seq<byte>)
    requires IsMessage(be, m, tid, slave, pdu) && |pdu| < 0xFF00
    ensures Finish(be, m) == Frame(be, tid, slave, pdu)
  {
    if be.Rtu? {
      assert m == [slave] + pdu;
    }
  }

  /** `check_integrity`: a CRC over RTU, nothing over TCP. */
  predicate CheckIntegrity(be: Backend, msg: seq<byte>) {
    be.Rtu? ==> IntegrityOk(msg)
  }

  /** The part of a message between its header and its checksum. */
  function PduOf(be: Backend, msg: seq<byte>): seq<byte>
    requires be.HeaderLength() + be.ChecksumLength() <= |msg|
  {
    msg[be.HeaderLength()..|msg| - be.ChecksumLength()]
  }

  lemma FrameParts(be: Backend, tid: word, slave: byte, pdu: seq<byte>)
    requires |pdu| < 0xFF00
    ensures var f := Frame(be, tid, slave, pdu); var h := be.HeaderLength();
            && |f| == h + |pdu| + be.ChecksumLength()
            && IsHeader(be, f[..h], tid, slave)
            && f[h..h + |pdu|] == pdu
            && PduOf(be, f) == pdu
            && CheckIntegrity(be, f)
            && f[h - 1] == slave
            && (be.Tcp? ==> Word(f[0], f[1]) == tid)
  {
    if be.Rtu? {
      SealedIsOk([slave] + pdu);
    } else {
      WordOfHiLo(tid);
    }
  }

  // ----- sixteen-bit fields

  function WordAt(s: seq<byte>, i: nat): word
    requires i + 1 < |s|
  {
    Word(s[i], s[i + 1])
  }

  function WordBytes(ws: seq<word>): (r: seq<byte>)
    ensures |r| == 2 * |ws|
  {
    seq(2 * |ws|, i requires 0 <= i < 2 * |ws| => if i % 2 == 0 then Hi(ws[i / 2]) else Lo(ws[i / 2]))
  }

  function WordsOf(s: seq<byte>, nb: nat): (r: seq<word>)
    requires 2 * nb <= |s|
    ensures |r| == nb
  {
    seq(nb, i requires 0 <= i < nb => WordAt(s, 2 * i))
  }

  lemma WordsOfWordBytes(ws: seq<word>)
    ensures WordsOf(WordBytes(ws), |ws|) == ws
  {
    forall i | 0 <= i < |ws|
      ensures WordsOf(WordBytes(ws), |ws|)[i] == ws[i]
    {
      assert 2 * i / 2 == i && (2 * i + 1) / 2 == i;
      WordOfHiLo(ws[i]);
    }
  }
}
