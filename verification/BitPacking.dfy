/**
 Bit tables in messages: one table entry per bit, eight to a byte, low bit first.  `Pack` and `Unpack` are
 the reference; the loops of the C sources follow them.
 */
module BitPacking {
  import opened Bytes
  import opened Bits

  /** `(nb / 8) + ((nb % 8) ? 1 : 0)`. */
  function ByteCount(nb: nat): nat {
    nb / 8 + Unit(nb % 8 != 0)
  }

  // ----- reference packing

  predicate EntrySet(bits: seq<byte>, q: nat) {
    q < |bits| && bits[q] != 0
  }

  function BitsFrom(bits: seq<byte>, start: nat, n: nat): (b: nat)
    ensures b < Pow2(n)
    decreases n
  {
    if n == 0 then 0 else Unit(EntrySet(bits, start)) + 2 * BitsFrom(bits, start + 1, n - 1)
  }

  function PackedByte(bits: seq<byte>, i: nat): byte {
    EightBits();
    BitsFrom(bits, 8 * i, 8)
  }

  function Pack(bits: seq<byte>): (r: seq<byte>)
    ensures |r| == ByteCount(|bits|)
  {
    seq(ByteCount(|bits|), i requires 0 <= i => PackedByte(bits, i))
  }

  function Unpack(bytes: seq<byte>, nb: nat): (r: seq<byte>)
    requires ByteCount(nb) <= |bytes|
    ensures |r| == nb
  {
    seq(nb, q requires 0 <= q < nb => Unit(BitOf(bytes[q / 8], q % 8)))
  }

  predicate ZeroOne(bits: seq<byte>) {
    forall q :: 0 <= q < |bits| ==> bits[q] <= 1
  }

  /** `x ? TRUE : FALSE` on every entry. */
  function Normalized(bits: seq<byte>): (r: seq<byte>)
    ensures |r| == |bits|
  {
    seq(|bits|, q requires 0 <= q < |bits| => Unit(bits[q] != 0))
  }

  lemma {:induction false} BitOfBitsFrom(bits: seq<byte>, start: nat, n: nat, j: nat)
    requires j < n
    ensures BitOf(BitsFrom(bits, start, n), j) == EntrySet(bits, start + j)
    decreases j
  {
    if j > 0 {
      BitOfBitsFrom(bits, start + 1, n - 1, j - 1);
    }
  }

  /** Bit `j` of byte `i` is entry `8 * i + j`; the padding bits of the last byte are zero. */
  lemma PackBit(bits: seq<byte>, i: nat, j: nat)
    requires i < ByteCount(|bits|) && j < 8
    ensures BitOf(Pack(bits)[i], j) == EntrySet(bits, 8 * i + j)
  {
    BitOfBitsFrom(bits, 8 * i, 8, j);
  }

  lemma UnpackOfPackAt(bits: seq<byte>, q: nat, i: nat, j: nat)
    requires q < |bits| && i == q / 8 && j == q % 8
    ensures Unpack(Pack(bits), |bits|)[q] == Normalized(bits)[q]
  {
    hide PackedByte, BitOf;
    PackBit(bits, i, j);
  }

  lemma UnpackOfPack(bits: seq<byte>)
    ensures Unpack(Pack(bits), |bits|) == Normalized(bits)
  {
    hide Pack, BitOf;
    forall q | 0 <= q < |bits|
      ensures Unpack(Pack(bits), |bits|)[q] == Normalized(bits)[q]
    {
      UnpackOfPackAt(bits, q, q / 8, q % 8);
    }
  }

  lemma NormalizedZeroOne(bits: seq<byte>)
    requires ZeroOne(bits)
    ensures Normalized(bits) == bits
  {
  }

  /** Packing undoes unpacking on bytes of the right number whose padding bits are zero. */
  lemma PackOfUnpack(bytes: seq<byte>, nb: nat)
    requires |bytes| == ByteCount(nb)
    requires forall q :: nb <= q < 8 * |bytes| ==> !BitOf(bytes[q / 8], q % 8)
    ensures Pack(Unpack(bytes, nb)) == bytes
  {
    hide Unpack, BitOf;
    var bits := Unpack(bytes, nb);
    forall i | 0 <= i < |bytes|
      ensures Pack(bits)[i] == bytes[i]
    {
      forall j | 0 <= j < 8
        ensures BitOf(Pack(bits)[i], j) == BitOf(bytes[i], j)
      {
        PackOfUnpackAt(bytes, nb, i, j, 8 * i + j);
      }
      SameByte(Pack(bits)[i], bytes[i]);
    }
  }

  lemma PackOfUnpackAt(bytes: seq<byte>, nb: nat, i: nat, j: nat, q: nat)
    requires |bytes| == ByteCount(nb) && i < |bytes| && j < 8 && q == 8 * i + j
    requires nb <= q ==> !BitOf(bytes[q / 8], q % 8)
    ensures BitOf(Pack(Unpack(bytes, nb))[i], j) == BitOf(bytes[i], j)
  {
    hide PackedByte, BitOf, Pack;
    PackBit(Unpack(bytes, nb), i, j);
    assert q / 8 == i && q % 8 == j;
  }

  // ----- the server's loop, which or-s whole table entries together

  function IoFold(tab: seq<byte>, lo: nat, hi: nat): byte
    requires lo <= hi <= |tab|
    decreases hi
  {
    if hi == lo then 0 else Or(IoFold(tab, lo, hi - 1), Shl(tab[hi - 1], hi - 1 - lo))
  }

  function IoByte(tab: seq<byte>, i: nat): byte
    requires i < ByteCount(|tab|)
  {
    IoFold(tab, 8 * i, Min(8 * i + 8, |tab|))
  }

  /** The data bytes of a response that reads the entries `tab`, whatever values they hold. */
  function IoStatus(tab: seq<byte>): (r: seq<byte>)
    ensures |r| == ByteCount(|tab|)
  {
    seq(ByteCount(|tab|), i requires 0 <= i < ByteCount(|tab|) => IoByte(tab, i))
  }

  lemma {:induction false} IoFoldBit(tab: seq<byte>, lo: nat, hi: nat, j: nat)
    requires lo <= hi <= |tab| && hi <= lo + 8 && j < 8
    requires ZeroOne(tab)
    ensures BitOf(IoFold(tab, lo, hi), j) <==> lo + j < hi && tab[lo + j] == 1
    decreases hi
  {
    if hi == lo {
      ZeroHasNoBits(j);
    } else {
      IoFoldBit(tab, lo, hi - 1, j);
      BitOfOr(IoFold(tab, lo, hi - 1), Shl(tab[hi - 1], hi - 1 - lo), j);
      ShlBit(tab[hi - 1], hi - 1 - lo, j);
    }
  }

  /** On tables of zeros and ones the server's loop packs as the protocol asks. */
  lemma IoStatusPacks(tab: seq<byte>)
    requires ZeroOne(tab)
    ensures IoStatus(tab) == Pack(tab)
  {
    forall i | 0 <= i < ByteCount(|tab|)
      ensures IoStatus(tab)[i] == Pack(tab)[i]
    {
      forall j | 0 <= j < 8
        ensures BitOf(IoStatus(tab)[i], j) == BitOf(Pack(tab)[i], j)
      {
        IoFoldBit(tab, 8 * i, Min(8 * i + 8, |tab|), j);
        PackBit(tab, i, j);
      }
      SameByte(IoStatus(tab)[i], Pack(tab)[i]);
    }
  }

  lemma IoStatusRoundTrip(tab: seq<byte>)
    requires ZeroOne(tab)
    ensures Unpack(IoStatus(tab), |tab|) == tab
  {
    IoStatusPacks(tab);
    UnpackOfPack(tab);
    NormalizedZeroOne(tab);
  }

  // ----- the loops

  lemma IoByteAt(tab: seq<byte>, q: nat, shift: nat)
    requires shift < 8 && 8 * q + shift < |tab| && (shift == 7 || 8 * q + shift + 1 == |tab|)
    ensures q < ByteCount(|tab|)
    ensures IoStatus(tab)[q] == IoFold(tab, 8 * q, 8 * q + shift + 1)
  {
  }

  /** `response_io_status`. */
  method ResponseIoStatus(address: nat, nb: nat, tabIoStatus: array<byte>, rsp: array<byte>, offset: nat)
    returns (end: nat)
    requires address + nb <= tabIoStatus.Length
    requires offset + ByteCount(nb) <= rsp.Length && rsp != tabIoStatus
    modifies rsp
    ensures end == offset + ByteCount(nb)
    ensures rsp[offset..end] == IoStatus(tabIoStatus[address..address + nb])
    ensures rsp[..offset] == old(rsp[..offset]) && rsp[end..] == old(rsp[end..])
  {
    hide Or, Shl, IoStatus, ByteCount, IoFold;
    var shift := 0;
    var b: byte := 0;
    var i := address;
    end := offset;
    ghost var tab, before := tabIoStatus[address..address + nb], rsp[..];
    IoFoldStep(tab, 0, 0);
    while i < address + nb
      invariant address <= i <= address + nb && shift < 8 && offset <= end
      invariant i - address == 8 * (end - offset) + shift
      invariant end - offset <= ByteCount(nb)
      invariant b == IoFold(tab, 8 * (end - offset), i - address)
      invariant forall k :: offset <= k < end ==> rsp[k] == IoStatus(tab)[k - offset]
      invariant forall k :: 0 <= k < rsp.Length && !(offset <= k < end) ==> rsp[k] == before[k]
    {
      IoFoldStep(tab, 8 * (end - offset), i - address);
      b := Or(b, Shl(tabIoStatus[i], shift));
      if shift == 7 {
        IoByteAt(tab, end - offset, shift);
        rsp[end] := b;
        end := end + 1;
        b, shift := 0, 0;
        IoFoldStep(tab, i + 1 - address, i + 1 - address);
      } else {
        shift := shift + 1;
      }
      i := i + 1;
    }
    if shift != 0 {
      IoByteAt(tab, end - offset, shift - 1);
      rsp[end] := b;
      end := end + 1;
    }
    ByteCountOf(nb, end - offset, shift);
    StoredSlice(rsp[..], offset, end, IoStatus(tab));
    SameOutside(rsp[..], before, offset, end);
  }

  lemma IoFoldStep(tab: seq<byte>, lo: nat, hi: nat)
    requires lo <= hi <= |tab|
    ensures IoFold(tab, lo, lo) == 0
    ensures hi < |tab| ==> IoFold(tab, lo, hi + 1) == Or(IoFold(tab, lo, hi), Shl(tab[hi], hi - lo))
  {
  }

  lemma ByteCountOf(nb: nat, q: nat, shift: nat)
    requires shift < 8 && nb == 8 * (if shift == 0 then q else q - 1) + shift
    ensures ByteCount(nb) == q
  {
  }

  /** `modbus_set_bits_from_bytes`. */
  method SetBitsFromBytes(dest: array<byte>, index: nat, nbBits: nat, tabByte: seq<byte>)
    requires index + nbBits <= dest.Length && ByteCount(nbBits) <= |tabByte|
    modifies dest
    ensures dest[..] == old(dest[..index]) + Unpack(tabByte, nbBits) + old(dest[index + nbBits..])
  {
    hide And, Shl, BitOf;
    var shift := 0;
    var i := index;
    while i < index + nbBits
      invariant index <= i <= index + nbBits
      invariant shift == (i - index) % 8
      invariant forall k :: 0 <= k < dest.Length ==>
                  dest[k] == if index <= k < i then Unpack(tabByte, nbBits)[k - index] else old(dest[k])
    {
      TestBit(tabByte[(i - index) / 8], shift);
      dest[i] := if And(tabByte[(i - index) / 8], Shl(1, shift)) != 0 then 1 else 0;
      shift := shift + 1;
      shift := shift % 8;
      i := i + 1;
    }
  }

  lemma PackedByteIs(src: seq<byte>, i: nat, b: byte)
    requires i < ByteCount(|src|)
    requires forall j :: 0 <= j < 8 ==> BitOf(b, j) == EntrySet(src, 8 * i + j)
    ensures b == Pack(src)[i]
  {
    forall j | 0 <= j < 8
      ensures BitOf(b, j) == BitOf(Pack(src)[i], j)
    {
      PackBit(src, i, j);
    }
    SameByte(b, Pack(src)[i]);
  }

  /** The inner loop of `modbus_write_bits`: one byte, from the entries `src[8 * i..]`. */
  method PackByte(src: seq<byte>, i: nat, req: array<byte>, at: nat)
    requires i < ByteCount(|src|) && at < req.Length
    modifies req
    ensures req[..] == old(req[..])[at := Pack(src)[i]]
  {
    hide Or, And, Shl, Not, Pack;
    var bit, pos := 0, 8 * i;
    req[at] := 0;
    forall j | 0 <= j < 8
      ensures !BitOf(0, j)
    {
      ZeroHasNoBits(j);
    }
    while bit < 8 && pos < |src|
      invariant 0 <= bit <= 8 && pos == 8 * i + bit && pos <= |src|
      invariant forall j :: 0 <= j < 8 ==> BitOf(req[at], j) == (j < bit && src[8 * i + j] != 0)
      invariant forall k :: 0 <= k < req.Length && k != at ==> req[k] == old(req[k])
      decreases 8 - bit
    {
      forall j | 0 <= j < 8
        ensures BitOf(Or(req[at], Shl(1, bit)), j) == (j == bit || BitOf(req[at], j))
        ensures BitOf(And(req[at], Not(Shl(1, bit))), j) == (j != bit && BitOf(req[at], j))
      {
        AssignBit(req[at], bit, j);
      }
      if src[pos] != 0 {
        req[at] := Or(req[at], Shl(1, bit));
      } else {
        req[at] := And(req[at], Not(Shl(1, bit)));
      }
      pos := pos + 1;
      bit := bit + 1;
    }
    PackedByteIs(src, i, req[at]);
  }

  /** The packing loop of `modbus_write_bits`. */
  method PackInto(src: seq<byte>, req: array<byte>, offset: nat) returns (end: nat)
    requires offset + ByteCount(|src|) <= req.Length
    modifies req
    ensures end == offset + ByteCount(|src|)
    ensures req[offset..end] == Pack(src)
    ensures req[..offset] == old(req[..offset]) && req[end..] == old(req[end..])
  {
    hide Pack;
    var byteCount := ByteCount(|src|);
    end := offset;
    for i := 0 to byteCount
      invariant end == offset + i
      invariant req[offset..end] == Pack(src)[..i]
      invariant req[..offset] == old(req[..offset]) && req[end..] == old(req[end..])
    {
      PackByte(src, i, req, end);
      end := end + 1;
    }
  }

  /** The inner loop of `read_io_status`: the bits of one data byte. */
  method UnpackByte(temp: byte, nb: nat, dest: array<byte>, start: nat) returns (pos: nat)
    requires start <= nb <= dest.Length
    modifies dest
    ensures pos == Min(start + 8, nb)
    ensures forall k :: start <= k < pos ==> dest[k] == Unit(BitOf(temp, k - start))
    ensures forall k :: 0 <= k < dest.Length && !(start <= k < pos) ==> dest[k] == old(dest[k])
  {
    hide And, Shl, BitOf;
    var bit := 0;
    pos := start;
    while bit < 8 && pos < nb
      invariant 0 <= bit <= 8 && pos == start + bit <= nb
      invariant forall k :: start <= k < pos ==> dest[k] == Unit(BitOf(temp, k - start))
      invariant forall k :: 0 <= k < dest.Length && !(start <= k < pos) ==> dest[k] == old(dest[k])
      decreases 8 - bit
    {
      TestBit(temp, bit);
      dest[pos] := if And(temp, Shl(1, bit)) != 0 then 1 else 0;
      pos := pos + 1;
      bit := bit + 1;
    }
  }

  /** The unpacking loop of `read_io_status`, over the data bytes `rsp[offset..offset + byteCount]`. */
  method UnpackInto(rsp: array<byte>, offset: nat, byteCount: nat, nb: nat, dest: array<byte>)
    requires offset + byteCount <= rsp.Length && byteCount == ByteCount(nb)
    requires nb <= dest.Length && dest != rsp
    modifies dest
    ensures dest[..] == Unpack(rsp[offset..offset + byteCount], nb) + old(dest[nb..])
  {
    hide BitOf;
    ghost var data := rsp[offset..offset + byteCount];
    var pos, i := 0, offset;
    while i < offset + byteCount
      invariant offset <= i <= offset + byteCount
      invariant pos == Min(8 * (i - offset), nb)
      invariant forall k :: 0 <= k < pos ==> dest[k] == Unpack(data, nb)[k]
      invariant forall k :: pos <= k < dest.Length ==> dest[k] == old(dest[k])
    {
      var start := pos;
      pos := UnpackByte(rsp[i], nb, dest, start);
      forall k | start <= k < pos
        ensures dest[k] == Unpack(data, nb)[k]
      {
        assert k / 8 == i - offset && k % 8 == k - start;
      }
      i := i + 1;
    }
  }

  // ----- single bytes

  /** `modbus_set_bits_from_byte`. */
  method SetBitsFromByte(dest: array<byte>, index: nat, value: byte)
    requires index + 8 <= dest.Length
    modifies dest
    ensures dest[..] == old(dest[..index]) + Unpack([value], 8) + old(dest[index + 8..])
  {
    hide And, Shl, BitOf;
    for i := 0 to 8
      invariant forall k :: 0 <= k < dest.Length ==>
                  dest[k] == if index <= k < index + i then Unpack([value], 8)[k - index] else old(dest[k])
    {
      TestBit(value, i);
      dest[index + i] := if And(value, Shl(1, i)) != 0 then 1 else 0;
    }
  }

  /** `modbus_get_byte_from_bits`, with assertions compiled out: at most eight entries are taken. */
  method GetByteFromBits(src: array<byte>, index: nat, nbBits: nat) returns (value: byte)
    requires index + Min(nbBits, 8) <= src.Length
    ensures value == IoFold(src[index..index + Min(nbBits, 8)], 0, Min(nbBits, 8))
  {
    hide Or, Shl, IoFold;
    var n := Min(nbBits, 8);
    ghost var tab := src[index..index + n];
    IoFoldStep(tab, 0, 0);
    value := 0;
    for i := 0 to n
      invariant value == IoFold(tab, 0, i)
    {
      IoFoldStep(tab, 0, i);
      value := Or(value, Shl(src[index + i], i));
    }
  }

  /** Getting a byte back from the bits it was set to. */
  lemma ByteOfItsBits(value: byte)
    ensures IoFold(Unpack([value], 8), 0, 8) == value
  {
    var tab := Unpack([value], 8);
    forall j | 0 <= j < 8
      ensures BitOf(IoFold(tab, 0, 8), j) == BitOf(value, j)
    {
      IoFoldBit(tab, 0, 8, j);
    }
    SameByte(IoFold(tab, 0, 8), value);
  }
}
