/** The hex codec of samsung-ipc/utils.c. */
module HexCodec {
  import opened Bytes
  import opened CStrings

  // ---------------------------------------------------------------- specification

  function HexDigit(v: nat): (c: byte)
    requires v < 16
    ensures c != 0
  {
    if v < 10 then (48 + v) as byte else (87 + v) as byte
  }

  predicate IsHexDigit(c: byte) {
    48 <= c <= 57 || 65 <= c <= 70 || 97 <= c <= 102
  }

  function DigitValue(c: byte): (v: nat)
    requires IsHexDigit(c)
    ensures v < 16
  {
    if c <= 57 then (c - 48) as nat else if c <= 70 then (c - 55) as nat else (c - 87) as nat
  }

  function ToLower(c: byte): byte {
    if 65 <= c <= 90 then c + 32 else c
  }

  /** The `i`-th half byte of `d`, high half first. */
  function Nibble(d: seq<byte>, i: nat): (v: nat)
    requires i < 2 * |d|
    ensures v < 16
  {
    if i % 2 == 0 then d[i / 2] as nat / 16 else d[i / 2] as nat % 16
  }

  /** Two lower-case digits per byte. */
  function Hex(d: seq<byte>): (s: CString)
    ensures |s| == 2 * |d|
  {
    seq(2 * |d|, i requires 0 <= i < 2 * |d| => HexDigit(Nibble(d, i)))
  }

  predicate IsSpace(c: byte) {
    9 <= c <= 13 || c == 32
  }

  /** `sscanf(&s[i], "%01x", &b)` followed by `if (rc < 1) b = 0`. */
  function ScanDigit(s: CString, i: nat): (v: nat)
    requires i <= |s|
    ensures v < 16
    decreases |s| - i
  {
    if i == |s| then 0
    else if IsSpace(s[i]) then ScanDigit(s, i + 1)
    else if IsHexDigit(s[i]) then DigitValue(s[i])
    else 0
  }

  /** The `j`-th half byte that a string stands for: an odd length is completed by a
      leading zero. */
  function StringNibble(s: CString, j: nat): (v: nat)
    requires j < |s| + |s| % 2
    ensures v < 16
  {
    if |s| % 2 == 0 then ScanDigit(s, j) else if j == 0 then 0 else ScanDigit(s, j - 1)
  }

  function Unhex(s: CString): (d: seq<byte>)
    ensures |d| == (|s| + 1) / 2
  {
    seq((|s| + 1) / 2, k requires 0 <= k < (|s| + 1) / 2 =>
      (16 * StringNibble(s, 2 * k) + StringNibble(s, 2 * k + 1)) as byte)
  }

  /** `s` in lower case, padded on the left with '0' to an even length. */
  function Canonical(s: CString): CString {
    (if |s| % 2 == 0 then [] else [48]) + seq(|s|, i requires 0 <= i < |s| => ToLower(s[i]))
  }

  // ---------------------------------------------------------------- the two conversions

  /** `data2string`; `None` is the null pointer. */
  method Data2String(data: seq<byte>) returns (text: Option<CString>)
    ensures text == if data == [] then None else Some(Hex(data))
  {
    if |data| == 0 {
      return None;
    }
    var buffer := new byte[2 * |data| + 1](_ => 0);
    var p := 0;
    for i := 0 to |data|
      invariant p == 2 * i
      invariant buffer[..p] == Hex(data)[..p]
    {
      buffer[p] := HexDigit(data[i] as nat / 16);
      buffer[p + 1] := HexDigit(data[i] as nat % 16);
      assert Nibble(data, p) == data[i] as nat / 16 && Nibble(data, p + 1) == data[i] as nat % 16;
      p := p + 2;
    }
    assert Hex(data)[..p] == Hex(data);
    return Some(buffer[..p]);
  }

  /** `string2data_size`. */
  function String2DataSize(s: CString): (size: nat)
    ensures size == |Unhex(s)|
  {
    if |s| == 0 then 0 else if |s| % 2 == 0 then |s| / 2 else (|s| - |s| % 2) / 2 + 1
  }

  /** `string2data`; the `|=` into a zeroed buffer never meets a set bit, so it adds. */
  method String2Data(s: CString) returns (data: Option<seq<byte>>)
    ensures data == if s == [] then None else Some(Unhex(s))
  {
    if |s| == 0 {
      return None;
    }
    var shift := if |s| % 2 == 0 then 0 else 1;
    ghost var odd := |s| % 2;
    var size := String2DataSize(s);
    var buffer := new byte[size](_ => 0);
    var p := 0;
    UnhexedNone(s, buffer[..]);
    for i := 0 to |s|
      invariant shift == i + odd && p == shift / 2
      invariant Unhexed(s, buffer[..], p, shift % 2 == 1)
    {
      var b := ScanDigit(s, i);
      NibbleScanned(s, i);
      PutNibble(s, buffer, p, shift, b);
      p := if shift % 2 == 0 then p else p + 1;
      shift := shift + 1;
    }
    UnhexedAll(s, buffer[..]);
    return Some(buffer[..]);
  }

  /** Adds half byte number `shift` at its place. */
  method PutNibble(ghost s: CString, buffer: array<byte>, p: nat, shift: nat, b: nat)
    requires shift < |s| + |s| % 2 && p == shift / 2 && b == StringNibble(s, shift)
    requires Unhexed(s, buffer[..], p, shift % 2 == 1)
    modifies buffer
    ensures Unhexed(s, buffer[..], (shift + 1) / 2, shift % 2 == 0)
  {
    UnhexedNext(s, buffer[..], shift);
    if shift % 2 == 0 {
      buffer[p] := (buffer[p] as nat + 16 * b) as byte;
    } else {
      buffer[p] := (buffer[p] as nat + b) as byte;
    }
  }

  /** `p` bytes are complete, the next has its high half if `half`, the rest are zero. */
  ghost predicate Unhexed(s: CString, d: seq<byte>, p: nat, half: bool) {
    && |d| == |Unhex(s)|
    && (forall k | 0 <= k < p && k < |d| :: d[k] == Unhex(s)[k])
    && (half ==> p < |d| && 2 * p < |s| + |s| % 2 && d[p] as nat == 16 * StringNibble(s, 2 * p))
    && (forall k | (if half then p + 1 else p) <= k < |d| :: d[k] == 0)
  }

  lemma UnhexedNone(s: CString, d: seq<byte>)
    requires |d| == |Unhex(s)| && forall k | 0 <= k < |d| :: d[k] == 0
    ensures Unhexed(s, d, 0, |s| % 2 == 1)
  {
  }

  lemma UnhexedAll(s: CString, d: seq<byte>)
    requires Unhexed(s, d, |Unhex(s)|, false)
    ensures d == Unhex(s)
  {
  }

  lemma NibbleScanned(s: CString, i: nat)
    requires i < |s|
    ensures StringNibble(s, i + |s| % 2) == ScanDigit(s, i)
  {
  }

  /** Half byte number `shift` goes into byte `shift / 2`, whose value it completes if odd. */
  lemma UnhexedNext(s: CString, d: seq<byte>, shift: nat)
    requires shift < |s| + |s| % 2 && Unhexed(s, d, shift / 2, shift % 2 == 1)
    ensures var p, b := shift / 2, StringNibble(s, shift);
            var v := d[p] as nat + if shift % 2 == 0 then 16 * b else b;
            v < 256 && Unhexed(s, d[p := v as byte], (shift + 1) / 2, shift % 2 == 0)
  {
    var p := shift / 2;
    UnhexAt(s, p);
  }

  lemma UnhexAt(s: CString, k: nat)
    requires k < |Unhex(s)|
    ensures Unhex(s)[k] as nat == 16 * StringNibble(s, 2 * k) + StringNibble(s, 2 * k + 1)
  {
  }

  // ---------------------------------------------------------------- they are inverses

  lemma DigitRoundTrip(v: nat)
    requires v < 16
    ensures IsHexDigit(HexDigit(v)) && DigitValue(HexDigit(v)) == v && !IsSpace(HexDigit(v))
  {
  }

  lemma NibbleOfHex(d: seq<byte>, j: nat)
    requires j < 2 * |d|
    ensures StringNibble(Hex(d), j) == Nibble(d, j)
  {
    DigitRoundTrip(Nibble(d, j));
  }

  lemma NibblesOfByte(d: seq<byte>, k: nat)
    requires k < |d|
    ensures d[k] as nat == 16 * Nibble(d, 2 * k) + Nibble(d, 2 * k + 1)
  {
    assert 2 * k / 2 == k && (2 * k + 1) / 2 == k;
  }

  /** The digits are those of `%02x` and of `%01x`, which reads both cases. */
  lemma DigitTable(v: nat)
    requires v < 16
    ensures HexDigit(v) as char == "0123456789abcdef"[v]
    ensures var c := "0123456789ABCDEF"[v] as int as byte;
            IsHexDigit(c) && DigitValue(c) == v && ToLower(c) == HexDigit(v)
  {
  }

  /** Where the encoding of a byte stands, and what it looks like. */
  lemma HexSpells(d: seq<byte>, k: nat)
    requires k < |d|
    ensures Hex(d)[2 * k] as char == "0123456789abcdef"[d[k] as nat / 16]
    ensures Hex(d)[2 * k + 1] as char == "0123456789abcdef"[d[k] as nat % 16]
  {
    assert 2 * k / 2 == k && (2 * k + 1) / 2 == k;
    DigitTable(d[k] as nat / 16);
    DigitTable(d[k] as nat % 16);
  }

  /** A half byte is read from the next character that is not white space, and is 0 if that
      is no digit or there is none. */
  lemma {:induction false} ScanDigitReads(s: CString, i: nat, j: nat)
    requires i <= j <= |s|
    requires forall k | i <= k < j :: s[k] == 32 || 9 <= s[k] <= 13
    requires j < |s| ==> s[j] != 32 && !(9 <= s[j] <= 13)
    ensures ScanDigit(s, i) == if j < |s| && IsHexDigit(s[j]) then DigitValue(s[j]) else 0
    decreases j - i
  {
    if i < j {
      ScanDigitReads(s, i + 1, j);
    }
  }

  /** Decoding what was encoded gives the data back. */
  lemma UnhexHex(d: seq<byte>)
    ensures Unhex(Hex(d)) == d
  {
    var s := Hex(d);
    forall k | 0 <= k < |d|
      ensures Unhex(s)[k] == d[k]
    {
      NibbleOfHex(d, 2 * k);
      NibbleOfHex(d, 2 * k + 1);
      NibblesOfByte(d, k);
      UnhexAt(s, k);
    }
  }

  lemma HexOfUnhex(s: CString, j: nat)
    requires j < |s| + |s| % 2
    ensures Hex(Unhex(s))[j] == HexDigit(StringNibble(s, j))
  {
    var k := j / 2;
    assert j == 2 * k + j % 2;
    assert Unhex(s)[k] as nat == 16 * StringNibble(s, 2 * k) + StringNibble(s, 2 * k + 1);
    assert Nibble(Unhex(s), j) == StringNibble(s, j);
  }

  lemma LowerOfDigit(c: byte)
    ensures IsHexDigit(ToLower(c)) <==> IsHexDigit(c)
    ensures IsHexDigit(c) ==> HexDigit(DigitValue(c)) == ToLower(c) && !IsSpace(c)
  {
  }

  lemma CanonicalAt(s: CString, j: nat)
    requires j < |s| + |s| % 2
    ensures Canonical(s)[j] == if j < |s| % 2 then 48 else ToLower(s[j - |s| % 2])
  {
  }

  /** One character comes back, in lower case, exactly if it is a hex digit. */
  lemma HexUnhexAt(s: CString, j: nat)
    requires j < |s| + |s| % 2
    ensures Hex(Unhex(s))[j] == Canonical(s)[j]
            <==> j < |s| % 2 || IsHexDigit(s[j - |s| % 2])
  {
    HexOfUnhex(s, j);
    CanonicalAt(s, j);
    DigitRoundTrip(StringNibble(s, j));
    if |s| % 2 <= j {
      LowerOfDigit(s[j - |s| % 2]);
      assert StringNibble(s, j) == ScanDigit(s, j - |s| % 2);
    }
  }

  ghost predicate AllDigits(s: CString) {
    forall i | 0 <= i < |s| :: IsHexDigit(s[i])
  }

  /** Encoding what was decoded gives the string back, lower-cased and padded, exactly
      for the strings made of hex digits only. */
  lemma HexUnhex(s: CString)
    ensures Hex(Unhex(s)) == Canonical(s) <==> AllDigits(s)
  {
    var h, c, odd := Hex(Unhex(s)), Canonical(s), |s| % 2;
    if AllDigits(s) {
      assert h == c by {
        forall j | 0 <= j < |s| + odd ensures h[j] == c[j] {
          HexUnhexAt(s, j);
        }
      }
    } else {
      var i :| 0 <= i < |s| && !IsHexDigit(s[i]);
      HexUnhexAt(s, i + odd);
    }
  }
}
