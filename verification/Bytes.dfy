/** The machine integers of the C sources: uint8_t and uint16_t, and the big-endian split of a word. */
module Bytes {

  type byte = x: int | 0 <= x < 0x100
  type word = x: int | 0 <= x < 0x1_0000

  /** `value >> 8`, stored into a uint8_t. */
  function Hi(value: word): byte {
    value / 0x100
  }

  /** `value & 0x00ff`. */
  function Lo(value: word): byte {
    value % 0x100
  }

  /** `(hi << 8) + lo`. */
  function Word(hi: byte, lo: byte): word {
    0x100 * hi + lo
  }

  lemma WordOfHiLo(value: word)
    ensures Word(Hi(value), Lo(value)) == value
  {
  }

  function Min(a: nat, b: nat): nat {
    if a < b then a else b
  }

  // ----- parts of parts of a sequence

  /** `t` in place of as many elements of `s`, from `at` on. */
  function Splice<T>(s: seq<T>, at: nat, t: seq<T>): (r: seq<T>)
    requires at + |t| <= |s|
    ensures |r| == |s|
  {
    s[..at] + t + s[at + |t|..]
  }

  lemma SliceOfSlice<T>(s: seq<T>, lo: nat, hi: nat, i: nat, n: nat)
    requires lo <= hi <= |s| && lo + i + n <= hi
    ensures s[lo..hi][i..][..n] == s[lo + i..lo + i + n]
    ensures s[..hi][lo + i..lo + i + n] == s[lo + i..lo + i + n]
  {
    forall k | 0 <= k < n
      ensures s[lo..hi][i..][..n][k] == s[lo + i + k] && s[..hi][lo + i..lo + i + n][k] == s[lo + i + k]
    {
    }
  }

  lemma SamePart<T>(s: seq<T>, t: seq<T>, lo: nat, hi: nat)
    requires lo <= hi <= |s| && hi <= |t| && s[..hi] == t[..hi]
    ensures s[lo..hi] == t[lo..][..hi - lo]
  {
    forall k | 0 <= k < hi - lo
      ensures s[lo..hi][k] == t[lo..][..hi - lo][k]
    {
      assert s[..hi][lo + k] == t[..hi][lo + k];
    }
  }

  /** A slice that may run over the ends `p` and `m` of two prefixes. */
  lemma SliceAcross<T>(s: seq<T>, h: nat, p: nat, m: nat, i: nat, n: nat)
    requires h + i <= p <= m <= |s| && h + i + n <= |s|
    ensures s[h + i..h + i + n] == (s[h..p][i..] + (s[p..m] + s[m..]))[..n]
  {
    var body := s[h..p][i..] + (s[p..m] + s[m..]);
    forall k | 0 <= k < n
      ensures s[h + i..h + i + n][k] == body[..n][k]
    {
    }
  }

  lemma StoredSlice<T>(s: seq<T>, lo: nat, hi: nat, t: seq<T>)
    requires lo <= hi <= |s| && |t| == hi - lo
    requires forall k :: lo <= k < hi ==> s[k] == t[k - lo]
    ensures s[lo..hi] == t
  {
    forall k | 0 <= k < |t|
      ensures s[lo..hi][k] == t[k]
    {
      assert s[lo + k] == t[lo + k - lo];
    }
  }

  lemma SameOutside<T>(s: seq<T>, t: seq<T>, lo: nat, hi: nat)
    requires lo <= hi <= |s| && |t| == |s|
    requires forall k :: 0 <= k < |s| && !(lo <= k < hi) ==> s[k] == t[k]
    ensures s[..lo] == t[..lo] && s[hi..] == t[hi..]
  {
    forall k | 0 <= k < |s| - hi
      ensures s[hi..][k] == t[hi..][k]
    {
      assert s[hi + k] == t[hi + k];
    }
  }

  // ----- a byte as eight bits

  lemma TwiceBits(b: bv8)
    requires b as int < 0x80
    ensures (b << 1) as int == 2 * (b as int)
    ensures ((b << 1) | 1) as int == 2 * (b as int) + 1
  {
  }

  lemma {:induction false} BitsOfByte(x: int) returns (b: bv8)
    requires 0 <= x < 0x100
    ensures b as int == x
    decreases x
  {
    if x == 0 {
      b := 0;
    } else {
      var h := BitsOfByte(x / 2);
      TwiceBits(h);
      b := if x % 2 == 0 then h << 1 else (h << 1) | 1;
    }
  }

  lemma VectorOfByte(x: int, b: bv8)
    requires b as int == x
    ensures x as bv8 == b
  {
  }

  lemma ByteRoundTrip(x: int)
    requires 0 <= x < 0x100
    ensures (x as bv8) as int == x
  {
    var b := BitsOfByte(x);
    VectorOfByte(x, b);
  }
}
