/** Bytes, C integers on the wire, and the byte-string update behind `write(2)` and `memcpy`. */
module Bytes {
  newtype byte = x: int | 0 <= x < 256

  type ushort = x: nat | x < 0x1_0000

  datatype Option<+T> = None | Some(value: T)

  function Min(a: nat, b: nat): nat {
    if a < b then a else b
  }

  function Zeros(n: nat): seq<byte> {
    seq(n, _ => 0)
  }

  // ---------------------------------------------------------------- little-endian integers

  /** A C `unsigned short` in memory; the value is truncated as the assignment to the field does. */
  function U16(v: nat): (b: seq<byte>)
    ensures |b| == 2
  {
    [(v % 256) as byte, (v / 256 % 256) as byte]
  }

  /** A C `unsigned int` in memory. */
  function U32(v: nat): (b: seq<byte>)
    ensures |b| == 4
  {
    U16(v % 0x1_0000) + U16(v / 0x1_0000)
  }

  function FromU16(b: seq<byte>): nat
    requires |b| == 2
  {
    b[0] as nat + 256 * b[1] as nat
  }

  function FromU32(b: seq<byte>): nat
    requires |b| == 4
  {
    FromU16(b[..2]) + 0x1_0000 * FromU16(b[2..])
  }

  lemma ModTwoBytes(v: nat)
    ensures v % 0x1_0000 == v % 256 + 256 * (v / 256 % 256)
  {
    var q, r := v / 256, v % 256;
    var h, l := q / 256, q % 256;
    assert v == 0x1_0000 * h + (256 * l + r);
  }

  lemma ModTwoWords(v: nat)
    ensures v % 0x1_0000_0000 == v % 0x1_0000 + 0x1_0000 * (v / 0x1_0000 % 0x1_0000)
  {
    var q, r := v / 0x1_0000, v % 0x1_0000;
    var h, l := q / 0x1_0000, q % 0x1_0000;
    assert v == 0x1_0000_0000 * h + (0x1_0000 * l + r);
  }

  lemma FromU16Inverts(v: nat)
    ensures FromU16(U16(v)) == v % 0x1_0000
  {
    ModTwoBytes(v);
  }

  lemma FromU32Inverts(v: nat)
    ensures FromU32(U32(v)) == v % 0x1_0000_0000
  {
    var lo, hi := v % 0x1_0000, v / 0x1_0000;
    FromU16Inverts(lo);
    FromU16Inverts(hi);
    ModTwoWords(v);
    FromU32Parts(U16(lo), U16(hi));
  }

  /** The number in the first four bytes, least significant first. */
  function Word(b: seq<byte>): nat
    requires |b| >= 4
  {
    b[0] as nat + 0x100 * b[1] as nat + 0x1_0000 * b[2] as nat + 0x100_0000 * b[3] as nat
  }

  lemma WordIsFromU32(b: seq<byte>)
    requires |b| >= 4
    ensures Word(b) == FromU32(b[..4])
  {
  }

  lemma WordIsU32(v: nat, b: seq<byte>)
    requires v < 0x1_0000_0000 && U32(v) <= b
    ensures Word(b) == v
  {
    FromU32Inverts(v);
    WordIsFromU32(b);
    assert b[..4] == U32(v);
  }

  lemma FromU32Parts(lo: seq<byte>, hi: seq<byte>)
    requires |lo| == 2 && |hi| == 2
    ensures FromU32(lo + hi) == FromU16(lo) + 0x1_0000 * FromU16(hi)
  {
    assert (lo + hi)[..2] == lo && (lo + hi)[2..] == hi;
  }

  // ---------------------------------------------------------------- updating a window

  /** `f` after `d` has been written at position `at`: bytes outside the window stay, a gap
      beyond the old end reads as zero, and writing nothing changes nothing. */
  function Splice(f: seq<byte>, at: nat, d: seq<byte>): (r: seq<byte>)
    ensures d == [] ==> r == f
    ensures d != [] ==> |r| == if |f| < at + |d| then at + |d| else |f|
    ensures forall k | 0 <= k < |r| ::
              r[k] == if at <= k < at + |d| then d[k - at] else if k < |f| then f[k] else 0
  {
    if d == [] then f
    else
      var g := if |f| < at then f + Zeros(at - |f|) else f;
      g[..at] + d + (if at + |d| < |g| then g[at + |d|..] else [])
  }

  /** Two adjacent writes are one write of the concatenation. */
  lemma SpliceAdjacent(f: seq<byte>, at: nat, a: seq<byte>, b: seq<byte>)
    ensures Splice(Splice(f, at, a), at + |a|, b) == Splice(f, at, a + b)
  {
    if a == [] {
      assert a + b == b;
    } else if b == [] {
      assert a + b == a;
    }
  }

  /** Reading the written window gives the written bytes back. */
  lemma SpliceWindow(f: seq<byte>, at: nat, d: seq<byte>)
    requires d != []
    ensures Splice(f, at, d)[at..at + |d|] == d
  {
  }

  /** Replacing the whole contents of a file that is no longer than the new ones. */
  lemma SpliceWhole(f: seq<byte>, d: seq<byte>)
    requires d != []
    ensures Splice(f, 0, d) == d <==> |f| <= |d|
  {
  }

  // ---------------------------------------------------------------- partial transfers

  /** What a read stores behind the `count` bytes already there. */
  method Append(payload: array<byte>, count: nat, d: seq<byte>)
    requires count + |d| <= payload.Length
    modifies payload
    ensures payload[..count + |d|] == old(payload[..count]) + d
  {
    forall k | 0 <= k < |d| {
      payload[count + k] := d[k];
    }
    assert payload[..count] == old(payload[..count]);
    assert payload[..count + |d|] == old(payload[..count]) + d;
  }

  lemma NextPart(f: seq<byte>, h: nat, count: nat, n: nat)
    requires h + count + n <= |f|
    ensures f[h..h + count] + f[h + count..h + count + n] == f[h..h + (count + n)]
  {
  }
}
