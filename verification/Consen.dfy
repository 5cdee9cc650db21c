/**
 The Modbus master of the Consen service: discrete inputs read from slaves are spliced, bit by bit and at
 any bit address, into a region of shared memory.
 */
module Consen {
  import opened Bytes
  import opened Bits
  import opened BitPacking

  /** Bit `q` of a region, low bit of the first byte first. */
  predicate RegionBit(region: seq<byte>, q: nat)
    requires q < 8 * |region|
  {
    BitOf(region[q / 8], q % 8)
  }

  /** Bit `q` after the first `n` entries of `tab` are spliced into `region` at bit `address`. */
  predicate SplicedBit(region: seq<byte>, address: nat, tab: seq<byte>, n: nat, q: nat)
    requires n <= |tab| && q < 8 * |region|
  {
    if address <= q < address + n then tab[q - address] != 0 else RegionBit(region, q)
  }

  /** The region with the entries of `tab` spliced in at bit `address`: on the table of its bits. */
  function Spliced(region: seq<byte>, address: nat, tab: seq<byte>): (r: seq<byte>)
    requires address + |tab| <= 8 * |region|
    ensures |r| == |region|
  {
    var bits := Unpack(region, 8 * |region|);
    Pack(Splice(bits, address, Normalized(tab)))
  }

  lemma BitOfSpliced(region: seq<byte>, address: nat, tab: seq<byte>, q: nat)
    requires address + |tab| <= 8 * |region| && q < 8 * |region|
    ensures RegionBit(Spliced(region, address, tab), q) == SplicedBit(region, address, tab, |tab|, q)
  {
    hide BitOf, Pack;
    var bits := Unpack(region, 8 * |region|);
    var bits' := Splice(bits, address, Normalized(tab));
    PackBit(bits', q / 8, q % 8);
    assert bits[q] == Unit(RegionBit(region, q));
  }

  /** A region is known by its bits. */
  lemma SameRegion(a: seq<byte>, b: seq<byte>)
    requires |a| == |b| && forall q :: 0 <= q < 8 * |a| ==> RegionBit(a, q) == RegionBit(b, q)
    ensures a == b
  {
    forall i | 0 <= i < |a|
      ensures a[i] == b[i]
    {
      forall j | 0 <= j < 8
        ensures BitOf(a[i], j) == BitOf(b[i], j)
      {
        var q := 8 * i + j;
        assert q / 8 == i && q % 8 == j;
        assert RegionBit(a, q) == RegionBit(b, q);
      }
      SameByte(a[i], b[i]);
    }
  }

  /** `b` is byte `at` of the region once the first `n` entries are spliced in. */
  predicate SplicedByte(region: seq<byte>, address: nat, tab: seq<byte>, n: nat, at: nat, b: byte)
    requires n <= |tab| && at < |region|
  {
    forall j :: 0 <= j < 8 ==> BitOf(b, j) == SplicedBit(region, address, tab, n, 8 * at + j)
  }

  lemma UntouchedByte(region: seq<byte>, address: nat, tab: seq<byte>, n: nat, at: nat)
    requires n <= |tab| && at < |region|
    requires 8 * at + 8 <= address || address + n <= 8 * at
    ensures SplicedByte(region, address, tab, n, at, region[at])
  {
    forall j | 0 <= j < 8
      ensures BitOf(region[at], j) == SplicedBit(region, address, tab, n, 8 * at + j)
    {
      assert (8 * at + j) / 8 == at && (8 * at + j) % 8 == j;
    }
  }

  /** A byte that lies before the next entry is not changed by it. */
  lemma FinishedByte(region: seq<byte>, address: nat, tab: seq<byte>, n: nat, at: nat, b: byte)
    requires n + 1 <= |tab| && at < |region| && 8 * at + 8 <= address + n
    requires SplicedByte(region, address, tab, n, at, b)
    ensures SplicedByte(region, address, tab, n + 1, at, b)
  {
    forall j | 0 <= j < 8
      ensures BitOf(b, j) == SplicedBit(region, address, tab, n + 1, 8 * at + j)
    {
    }
  }

  /** One entry spliced into the byte it belongs to. */
  lemma AssignedByte(region: seq<byte>, address: nat, tab: seq<byte>, n: nat, at: nat, shift: nat, b: byte)
    requires n < |tab| && at < |region| && shift < 8 && address + n == 8 * at + shift
    requires SplicedByte(region, address, tab, n, at, b)
    ensures SplicedByte(region, address, tab, n + 1, at,
                        if tab[n] == 0 then And(b, Not(Shl(1, shift))) else Or(b, Shl(1, shift)))
  {
    hide And, Or, Not, Shl;
    var b' := if tab[n] == 0 then And(b, Not(Shl(1, shift))) else Or(b, Shl(1, shift));
    forall j | 0 <= j < 8
      ensures BitOf(b', j) == SplicedBit(region, address, tab, n + 1, 8 * at + j)
    {
      AssignBit(b, shift, j);
    }
  }

  /**
   `assemble_io_status`.  The byte after the last bit must exist: when the range ends on a byte boundary it
   is read and written back.
   */
  method AssembleIoStatus(address: nat, nb: nat, tabIoStatus: array<byte>, rsp: array<byte>)
    requires nb <= tabIoStatus.Length && (address + nb) / 8 < rsp.Length && rsp != tabIoStatus
    modifies rsp
    ensures forall q :: 0 <= q < 8 * rsp.Length ==>
              RegionBit(rsp[..], q) == SplicedBit(old(rsp[..]), address, tabIoStatus[..nb], nb, q)
    ensures rsp[..] == Spliced(old(rsp[..]), address, tabIoStatus[..nb])
  {
    hide And, Or, Not, Shl, SplicedByte, SplicedBit;
    ghost var region, tab := rsp[..], tabIoStatus[..nb];
    var offset: nat := address / 8;
    var b := rsp[offset];
    var shift: nat := address % 8;
    forall at | 0 <= at <= offset
      ensures SplicedByte(region, address, tab, 0, at, region[at])
    {
      SplicedNothing(region, address, tab, at);
    }
    for i := 0 to nb
      invariant shift < 8 && address + i == 8 * offset + shift && offset < rsp.Length
      invariant SplicedByte(region, address, tab, i, offset, b)
      invariant forall at :: 0 <= at < offset ==> SplicedByte(region, address, tab, i, at, rsp[at])
      invariant forall at :: offset <= at < rsp.Length ==> rsp[at] == region[at]
    {
      AssignedByte(region, address, tab, i, offset, shift, b);
      forall at | 0 <= at < offset
        ensures SplicedByte(region, address, tab, i + 1, at, rsp[at])
      {
        FinishedByte(region, address, tab, i, at, rsp[at]);
      }
      if tabIoStatus[i] == 0 {
        b := And(b, Not(Shl(1, shift)));
      } else {
        b := Or(b, Shl(1, shift));
      }
      if shift == 7 {
        rsp[offset] := b;
        offset := offset + 1;
        b := rsp[offset];
        shift := 0;
        UntouchedByte(region, address, tab, i + 1, offset);
      } else {
        shift := shift + 1;
      }
    }
    rsp[offset] := b;
    forall at | 0 <= at < rsp.Length
      ensures SplicedByte(region, address, tab, nb, at, rsp[at])
    {
      if offset < at {
        UntouchedByte(region, address, tab, nb, at);
      }
    }
    forall q | 0 <= q < 8 * rsp.Length
      ensures RegionBit(rsp[..], q) == SplicedBit(region, address, tab, nb, q)
    {
      BitFromByte(region, rsp[..], address, tab, nb, q);
    }
    SpliceDone(region, rsp[..], address, tab);
  }

  lemma SpliceDone(region: seq<byte>, region': seq<byte>, address: nat, tab: seq<byte>)
    requires |region'| == |region| && address + |tab| <= 8 * |region|
    requires forall q :: 0 <= q < 8 * |region| ==>
               RegionBit(region', q) == SplicedBit(region, address, tab, |tab|, q)
    ensures region' == Spliced(region, address, tab)
  {
    hide RegionBit, SplicedBit, Spliced;
    forall q | 0 <= q < 8 * |region|
      ensures RegionBit(region', q) == RegionBit(Spliced(region, address, tab), q)
    {
      BitOfSpliced(region, address, tab, q);
    }
    SameRegion(region', Spliced(region, address, tab));
  }

  lemma SplicedNothing(region: seq<byte>, address: nat, tab: seq<byte>, at: nat)
    requires at < |region|
    ensures SplicedByte(region, address, tab, 0, at, region[at])
  {
    forall j | 0 <= j < 8
      ensures BitOf(region[at], j) == SplicedBit(region, address, tab, 0, 8 * at + j)
    {
      assert (8 * at + j) / 8 == at && (8 * at + j) % 8 == j;
    }
  }

  lemma BitFromByte(region: seq<byte>, region': seq<byte>, address: nat, tab: seq<byte>, n: nat, q: nat)
    requires n <= |tab| && |region'| == |region| && q < 8 * |region|
    requires SplicedByte(region, address, tab, n, q / 8, region'[q / 8])
    ensures RegionBit(region', q) == SplicedBit(region, address, tab, n, q)
  {
    assert BitOf(region'[q / 8], q % 8) == SplicedBit(region, address, tab, n, 8 * (q / 8) + q % 8);
  }
}
