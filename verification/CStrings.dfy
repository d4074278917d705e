/** C strings: the characters before the terminating NUL, as bytes. */
module CStrings {
  import opened Bytes

  type CString = s: seq<byte> | forall k | 0 <= k < |s| :: s[k] != 0

  /** The string found in the bytes `b`, or in all of them if none is NUL: what
      `strndup(b, |b|)` returns. */
  function Strndup(b: seq<byte>): CString {
    if b == [] || b[0] == 0 then [] else [b[0]] + Strndup(b[1..])
  }

  /** `strncmp(a, b, n) == 0`. */
  predicate StrnEqual(a: CString, b: CString, n: nat) {
    a[..Min(n, |a|)] == b[..Min(n, |b|)]
  }

  /** The `|b|` bytes that `strncpy(_, b, |b|)` stores: the string in `b`, then zeros. */
  function Strncpy(b: seq<byte>): (r: seq<byte>)
    ensures |r| == |b|
  {
    StrndupPrefix(b);
    Strndup(b) + Zeros(|b| - |Strndup(b)|)
  }

  /** Comparing a string with duplicated bytes of its length compares all the bytes,
      whatever NUL bytes they hold. */
  lemma StrnEqualIsEquality(a: CString, b: seq<byte>)
    requires |a| == |b|
    ensures StrnEqual(a, Strndup(b), |a|) <==> a == b
  {
    StrndupPrefix(b);
    if a == b {
      StrndupWhole(a);
    }
    assert a[..|a|] == a && Strndup(b)[..|Strndup(b)|] == Strndup(b);
  }

  lemma {:induction false} StrndupWhole(a: CString)
    ensures Strndup(a) == a
  {
    if a != [] {
      assert a[0] != 0;
      StrndupWhole(a[1..]);
    }
  }

  lemma {:induction false} StrndupPrefix(b: seq<byte>)
    ensures Strndup(b) <= b
  {
    if b != [] {
      StrndupPrefix(b[1..]);
    }
  }

  /** It ends at a NUL or at the end of the bytes. */
  lemma {:induction false} StrndupEnds(b: seq<byte>)
    ensures |Strndup(b)| <= |b|
    ensures |Strndup(b)| < |b| ==> b[|Strndup(b)|] == 0
  {
    if b != [] && b[0] != 0 {
      StrndupEnds(b[1..]);
    }
  }

  /** A NUL after a string ends it, whatever follows. */
  lemma {:induction false} StrndupStops(a: CString, rest: seq<byte>)
    ensures Strndup(a + [0] + rest) == a
  {
    var b := a + [0] + rest;
    if a == [] {
      assert b[0] == 0;
    } else {
      assert a[0] != 0;
      assert b[1..] == a[1..] + [0] + rest;
      StrndupStops(a[1..], rest);
    }
  }
}
