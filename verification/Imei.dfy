/** The IMEI codec and the commands of tools/nv_data-imei.c.  The stored form is that of the
    IMEI in the mobile identity element, section 10.5.1.4 of 3GPP TS 24.008. */
module Imei {
  import opened Bytes
  import opened CStrings
  import opened HexCodec
  import opened Storage
  import opened NvModel
  import opened NvStore

  const IMEI_LENGTH := 15
  const IMEI_BYTES := 8

  // ---------------------------------------------------------------- specification

  ghost predicate HexImei(s: CString) {
    |s| == IMEI_LENGTH && AllDigits(s)
  }

  ghost predicate DecimalImei(s: CString) {
    |s| == IMEI_LENGTH && forall i | 0 <= i < |s| :: 48 <= s[i] <= 57
  }

  /** The `k`-th stored byte: the digit pair `2k - 1`, `2k` with the halves swapped; the
      first byte has the single first digit above the constant 0xA. */
  function EncodedByte(s: CString, k: nat): byte
    requires |s| == IMEI_LENGTH && AllDigits(s) && k < IMEI_BYTES
  {
    if k == 0 then (16 * DigitValue(s[0]) + 0xA) as byte
    else (16 * DigitValue(s[2 * k]) + DigitValue(s[2 * k - 1])) as byte
  }

  function Encode(s: CString): (b: seq<byte>)
    requires |s| == IMEI_LENGTH && AllDigits(s)
    ensures |b| == IMEI_BYTES
  {
    seq(IMEI_BYTES, k requires 0 <= k < IMEI_BYTES => EncodedByte(s, k))
  }

  function DecodedChar(b: seq<byte>, i: nat): (c: byte)
    requires |b| == IMEI_BYTES && i < IMEI_LENGTH
    ensures c != 0
  {
    var v := b[(i + 1) / 2] as nat;
    HexDigit(if i % 2 == 0 then v / 16 else v % 16)
  }

  function Decode(b: seq<byte>): (s: CString)
    requires |b| == IMEI_BYTES
    ensures |s| == IMEI_LENGTH
  {
    seq(IMEI_LENGTH, i requires 0 <= i < IMEI_LENGTH => DecodedChar(b, i))
  }

  // ---------------------------------------------------------------- the codec

  /** Exchanging the halves of a byte. */
  lemma SwapHalves(v: nat)
    requires v < 256
    ensures v * 16 % 256 == v % 16 * 16
    ensures (v / 16 + v % 16 * 16) / 16 == v % 16 && (v / 16 + v % 16 * 16) % 16 == v / 16
  {
  }

  /** `encode_imei`: the first eight bytes of the buffer, and no more, are written. */
  method EncodeImei(buf: array<byte>, imei: CString)
    requires HexImei(imei) && IMEI_BYTES <= buf.Length
    modifies buf
    ensures buf[..] == Encode(imei) + old(buf[IMEI_BYTES..])
  {
    var v := DigitValue(imei[0]);
    buf[0] := (16 * v + 0xA) as byte;
    var p := 1;
    var i := 1;
    while i < IMEI_LENGTH
      invariant i == 2 * p - 1 && 1 <= p <= IMEI_BYTES
      invariant buf[..p] == Encode(imei)[..p]
      invariant buf[IMEI_BYTES..] == old(buf[IMEI_BYTES..])
    {
      v := 16 * DigitValue(imei[i]) + DigitValue(imei[i + 1]);
      SwapHalves(v);
      Halves(DigitValue(imei[i]), DigitValue(imei[i + 1]));
      buf[p] := (v * 16 % 256 + v / 16) as byte;
      assert buf[p] == EncodedByte(imei, p);
      p := p + 1;
      i := i + 2;
    }
    assert buf[..IMEI_BYTES] == Encode(imei);
    assert buf[..] == buf[..IMEI_BYTES] + buf[IMEI_BYTES..];
  }

  lemma DecodedPair(b: seq<byte>, p: nat)
    requires |b| == IMEI_BYTES && 1 <= p < IMEI_BYTES
    ensures DecodedChar(b, 2 * p - 1) == HexDigit(b[p] as nat % 16)
    ensures DecodedChar(b, 2 * p) == HexDigit(b[p] as nat / 16)
  {
    assert (2 * p - 1 + 1) / 2 == p && (2 * p + 1) / 2 == p;
  }

  lemma SwappedPair(b: seq<byte>, p: nat)
    requires |b| == IMEI_BYTES && 1 <= p < IMEI_BYTES
    ensures var swapped := b[p] as nat / 16 + b[p] as nat % 16 * 16;
            && swapped < 256
            && HexDigit(swapped / 16) == DecodedChar(b, 2 * p - 1)
            && HexDigit(swapped % 16) == DecodedChar(b, 2 * p)
  {
    SwapHalves(b[p] as nat);
    DecodedPair(b, p);
  }

  /** The stored bytes, half by half: 0xA and the first digit, then the digits in pairs. */
  lemma EncodeLayout(s: CString, k: nat)
    requires HexImei(s) && 1 <= k < 8
    ensures Encode(s)[0] as nat % 16 == 0xA && Encode(s)[0] as nat / 16 == DigitValue(s[0])
    ensures Encode(s)[k] as nat % 16 == DigitValue(s[2 * k - 1])
    ensures Encode(s)[k] as nat / 16 == DigitValue(s[2 * k])
  {
    Halves(DigitValue(s[0]), 0xA);
    assert Encode(s)[0] == EncodedByte(s, 0);
    EncodedPair(s, k);
  }

  /** The text shown for any eight bytes. */
  lemma DecodeLayout(b: seq<byte>, k: nat)
    requires |b| == 8 && 1 <= k < 8
    ensures Decode(b)[0] as char == "0123456789abcdef"[b[0] as nat / 16]
    ensures Decode(b)[2 * k - 1] as char == "0123456789abcdef"[b[k] as nat % 16]
    ensures Decode(b)[2 * k] as char == "0123456789abcdef"[b[k] as nat / 16]
  {
    DecodedPair(b, k);
    DigitTable(b[0] as nat / 16);
    DigitTable(b[k] as nat % 16);
    DigitTable(b[k] as nat / 16);
  }

  /** `decode_imei`. */
  method DecodeImei(buf: seq<byte>) returns (imei: CString)
    requires |buf| == IMEI_BYTES
    ensures imei == Decode(buf)
  {
    var text := new byte[IMEI_LENGTH + 1](_ => 0);
    text[0] := HexDigit(buf[0] as nat / 16);
    var i := 1;
    var p := 1;
    while i < IMEI_LENGTH
      invariant i == 2 * p - 1 && 1 <= p <= IMEI_BYTES
      invariant forall k | 0 <= k < i :: text[k] == DecodedChar(buf, k)
    {
      SwappedPair(buf, p);
      var swapped := buf[p] as nat / 16 + buf[p] as nat % 16 * 16;
      text[i] := HexDigit(swapped / 16);
      text[i + 1] := HexDigit(swapped % 16);
      i := i + 2;
      p := p + 1;
    }
    assert text[..IMEI_LENGTH] == Decode(buf);
    imei := text[..IMEI_LENGTH];
  }

  /** The validation in `get_imei`. */
  method GetImei(optarg: CString) returns (rc: int)
    ensures rc == 0 <==> DecimalImei(optarg)
    ensures rc == 0 <==> |optarg| == 15 && forall i | 0 <= i < 15 :: '0' <= optarg[i] as char <= '9'
  {
    var isDigit := true;
    var lengthValid := |optarg| == IMEI_LENGTH;
    var i := 0;
    while i < |optarg|
      invariant i <= |optarg|
      invariant isDigit ==> forall k | 0 <= k < i :: 48 <= optarg[k] <= 57
    {
      if !(48 <= optarg[i] <= 57) {
        isDigit := false;
        assert !DecimalImei(optarg);
        break;
      }
      i := i + 1;
    }
    return if isDigit && lengthValid then 0 else -EINVAL;
  }

  lemma DecimalIsHex(s: CString)
    requires DecimalImei(s)
    ensures HexImei(s)
  {
  }

  // ---------------------------------------------------------------- the codec inverts

  lemma Halves(x: nat, y: nat)
    requires x < 16 && y < 16
    ensures (16 * x + y) / 16 == x && (16 * x + y) % 16 == y
  {
  }

  lemma DecodeEncodePair(s: CString, p: nat)
    requires HexImei(s) && 1 <= p < IMEI_BYTES
    ensures Decode(Encode(s))[2 * p - 1] == ToLower(s[2 * p - 1])
    ensures Decode(Encode(s))[2 * p] == ToLower(s[2 * p])
  {
    EncodedPair(s, p);
    DecodePair(Encode(s), p, s[2 * p], s[2 * p - 1]);
  }

  lemma DecodePair(b: seq<byte>, p: nat, high: byte, low: byte)
    requires |b| == IMEI_BYTES && 1 <= p < IMEI_BYTES
    requires IsHexDigit(high) && b[p] as nat / 16 == DigitValue(high)
    requires IsHexDigit(low) && b[p] as nat % 16 == DigitValue(low)
    ensures Decode(b)[2 * p - 1] == ToLower(low) && Decode(b)[2 * p] == ToLower(high)
  {
    LowerOfDigit(high);
    LowerOfDigit(low);
    DecodedPair(b, p);
  }

  lemma EncodedPair(s: CString, p: nat)
    requires HexImei(s) && 1 <= p < IMEI_BYTES
    ensures IsHexDigit(s[2 * p]) && IsHexDigit(s[2 * p - 1])
    ensures Encode(s)[p] as nat / 16 == DigitValue(s[2 * p])
    ensures Encode(s)[p] as nat % 16 == DigitValue(s[2 * p - 1])
  {
    assert IsHexDigit(s[2 * p]) && IsHexDigit(s[2 * p - 1]);
    assert Encode(s)[p] == EncodedByte(s, p);
    Halves(DigitValue(s[2 * p]), DigitValue(s[2 * p - 1]));
  }

  lemma DecodeEncodeAt(s: CString, i: nat)
    requires HexImei(s) && i < IMEI_LENGTH
    ensures Decode(Encode(s))[i] == ToLower(s[i])
  {
    if i == 0 {
      LowerOfDigit(s[0]);
      assert Encode(s)[0] as nat == 16 * DigitValue(s[0]) + 0xA;
    } else {
      DecodeEncodePair(s, (i + 1) / 2);
    }
  }

  /** Decoding an encoded IMEI gives it back, with hex letters in lower case. */
  lemma DecodeEncode(s: CString)
    requires HexImei(s)
    ensures forall i | 0 <= i < IMEI_LENGTH :: Decode(Encode(s))[i] == ToLower(s[i])
    ensures DecimalImei(s) ==> Decode(Encode(s)) == s
  {
    forall i | 0 <= i < IMEI_LENGTH
      ensures Decode(Encode(s))[i] == ToLower(s[i])
    {
      DecodeEncodeAt(s, i);
    }
  }

  /** No two IMEIs have the same stored form. */
  lemma EncodeInjective(s: CString, t: CString)
    requires DecimalImei(s) && DecimalImei(t)
    requires (DecimalIsHex(s); DecimalIsHex(t); Encode(s) == Encode(t))
    ensures s == t
  {
    DecodeEncode(s);
    DecodeEncode(t);
  }

  lemma DecodeIsHex(b: seq<byte>)
    requires |b| == IMEI_BYTES
    ensures HexImei(Decode(b))
  {
    forall i | 0 <= i < IMEI_LENGTH
      ensures IsHexDigit(Decode(b)[i])
    {
      var v := b[(i + 1) / 2] as nat;
      DigitRoundTrip(if i % 2 == 0 then v / 16 else v % 16);
    }
  }

  lemma EncodeDecodeAt(b: seq<byte>, k: nat)
    requires |b| == IMEI_BYTES && 0 < k < IMEI_BYTES && HexImei(Decode(b))
    ensures Encode(Decode(b))[k] == b[k]
  {
    var v, s := b[k] as nat, Decode(b);
    assert s[2 * k] == HexDigit(v / 16);
    assert s[2 * k - 1] == HexDigit(v % 16);
    DigitRoundTrip(v / 16);
    DigitRoundTrip(v % 16);
  }

  /** Eight stored bytes are an encoded IMEI exactly if the first has the low half 0xA. */
  lemma EncodeDecode(b: seq<byte>)
    requires |b| == IMEI_BYTES
    ensures HexImei(Decode(b))
    ensures Encode(Decode(b)) == b <==> b[0] % 16 == 0xA
  {
    DecodeIsHex(b);
    var v := b[0] as nat;
    DigitRoundTrip(v / 16);
    assert Decode(b)[0] == HexDigit(v / 16);
    assert Encode(Decode(b))[0] as nat == 16 * (v / 16) + 0xA;
    forall k | 0 < k < IMEI_BYTES
      ensures Encode(Decode(b))[k] == b[k]
    {
      EncodeDecodeAt(b, k);
    }
  }

  // ---------------------------------------------------------------- the commands

  /** The files after `write_imei` has run through; `kept` says that the old digest file
      could not be unlinked. */
  function ImeiStored(c: Config, s: Files, at: nat, imei: CString, kept: bool): Files
    requires |imei| == IMEI_LENGTH && AllDigits(imei)
  {
    var s1 := Spliced(c, s, at, Encode(imei));
    Rewritten(s1, c.md5Path, c.HexDigest(Content(s1, c.path)), kept)
  }

  /** The files in which `write_imei` may stop or end.  Once the IMEI is completely written
      and the size is right, the digest file is unlinked and written. */
  ghost predicate ImeiStops(c: Config, s: Files, at: nat, imei: CString, kept: bool, h: Files)
    requires |imei| == IMEI_LENGTH && AllDigits(imei)
  {
    || PartialWrite(s, c.path, at, Encode(imei), h)
    || var s1 := Spliced(c, s, at, Encode(imei));
       Sized(c, s1, c.path) && Rewriting(s1, c.md5Path, c.HexDigest(s1[c.path]), kept, h)
  }

  /** The files after an empty transfer has ended `write_imei`: a proper prefix of the IMEI
      or, behind the complete IMEI, a proper prefix of the digest is written. */
  ghost predicate ImeiCutShort(c: Config, s: Files, at: nat, imei: CString, h: Files)
    requires |imei| == IMEI_LENGTH && AllDigits(imei)
  {
    CutShort(s, c.path, at, Encode(imei), h)
  }

  ghost predicate DigestCutShort(c: Config, s: Files, at: nat, imei: CString, kept: bool, h: Files)
    requires |imei| == IMEI_LENGTH && AllDigits(imei)
  {
    var s1 := Spliced(c, s, at, Encode(imei));
    && Sized(c, s1, c.path)
    && CutShort(Unlinked(s1, c.md5Path, kept), c.md5Path, 0, c.HexDigest(s1[c.path]), h)
  }

  /** `write_imei`.  It returns the `errno` left by a failed transfer, which is 0 if a `write`
      transferred nothing without an error.  So status 0 means that everything is stored or
      that there was such an empty transfer, and nothing else; then a proper prefix of the
      IMEI or, behind a complete IMEI, of the digest is all that was written. */
  method WriteImei(store: NvStore, at: nat, imei: CString)
    returns (rc: int, ghost stored: bool, ghost kept: bool)
    requires store.c.Distinct() && HexImei(imei)
    modifies store.fs`files, store.fs`history, store.fs`emptyWrites
    ensures kept ==> store.fs.faults
    ensures rc == 0 <==> stored || store.fs.emptyWrites > old(store.fs.emptyWrites)
    ensures stored ==> store.fs.emptyWrites == old(store.fs.emptyWrites)
    ensures stored ==>
              && store.c.Usable() && at + IMEI_BYTES <= store.c.size
              && Sized(store.c, Spliced(store.c, old(store.fs.files), at, Encode(imei)),
                       store.c.path)
              && store.fs.files == ImeiStored(store.c, old(store.fs.files), at, imei, kept)
    ensures store.fs.emptyWrites > old(store.fs.emptyWrites) ==>
              || ImeiCutShort(store.c, old(store.fs.files), at, imei, store.fs.files)
              || DigestCutShort(store.c, old(store.fs.files), at, imei, kept, store.fs.files)
    ensures old(store.fs.history) <= store.fs.history
    ensures forall i :: |old(store.fs.history)| <= i < |store.fs.history|
              ==> ImeiStops(store.c, old(store.fs.files), at, imei, kept, store.fs.history[i])
    ensures ImeiStops(store.c, old(store.fs.files), at, imei, kept, store.fs.files)
    ensures !store.fs.faults ==> store.fs.emptyWrites == old(store.fs.emptyWrites)
    ensures !store.fs.faults && store.c.Usable() && Sized(store.c, old(store.fs.files), store.c.path)
            ==> (rc == 0 <==> at + IMEI_BYTES <= store.c.size)
  {
    stored, kept := false, false;
    var c, fs := store.c, store.fs;
    var buffer := new byte[IMEI_BYTES](_ => 0);
    EncodeImei(buffer, imei);
    assert buffer[..] == Encode(imei);
    var errno;
    rc, errno := fs.FileDataWrite(c.path, buffer[..], IMEI_BYTES, at);
    if rc == -1 {
      rc := errno;
      return;
    }
    ghost var s1 := fs.files;
    var md5 := store.Md5Calculate(c.path, c.size, c.chunkSize);
    if md5.None? {
      rc := -1;
      return;
    }
    rc, errno, kept := ReplaceDigest(fs, c.md5Path, md5.value);
    if rc == -1 {
      rc := errno;
      return;
    }
    stored := true;
    rc := 0;
  }

  /** The second half of `write_imei`: the result of `unlink` is ignored. */
  method ReplaceDigest(fs: FileSystem, m: Path, digest: CString)
    returns (rc: int, errno: int, ghost kept: bool)
    requires digest != []
    modifies fs`files, fs`history, fs`emptyWrites
    ensures rc == 0 || rc == -1
    ensures kept ==> fs.faults
    ensures rc == 0 ==> fs.files == Rewritten(old(fs.files), m, digest, kept)
    ensures rc == 0 ==> fs.emptyWrites == old(fs.emptyWrites)
    ensures rc < 0 ==> fs.emptyWrites == old(fs.emptyWrites) + if errno == 0 then 1 else 0
    ensures old(fs.history) <= fs.history
    ensures forall i :: |old(fs.history)| <= i < |fs.history|
              ==> Rewriting(old(fs.files), m, digest, kept, fs.history[i])
    ensures Rewriting(old(fs.files), m, digest, kept, fs.files)
    ensures rc < 0 && errno == 0 ==>
              CutShort(Unlinked(old(fs.files), m, kept), m, 0, digest, fs.files)
    ensures !fs.faults ==> rc == 0
  {
    var length := |digest|;
    rc := fs.Unlink(m);
    kept := rc < 0 && m in fs.files;
    assert fs.files == Unlinked(old(fs.files), m, kept);
    assert PartialWrite(fs.files, m, 0, digest, fs.files);
    rc, errno := fs.FileDataWrite(m, digest, length, 0);
  }

  /** What an empty transfer behind `n` bytes of the digest leaves validates exactly if the
      old digest file could not be unlinked, has the length of a digest and happens to end as
      the new digest does. */
  lemma FalseSuccessAt(c: Config, s: Files, at: nat, imei: CString, kept: bool, n: nat)
    requires c.Distinct() && c.Usable() && HexImei(imei) && n < MD5_DIGEST_LENGTH_ASCII
    requires Sized(c, Spliced(c, s, at, Encode(imei)), c.path)
    ensures var s1, old1 := Spliced(c, s, at, Encode(imei)), Content(s, c.md5Path);
            var digest := c.HexDigest(s1[c.path]);
            var h := Written(Unlinked(s1, c.md5Path, kept), c.md5Path, 0, digest[..n]);
            PrimaryValid(c, h)
            <==> kept && |old1| == MD5_DIGEST_LENGTH_ASCII && old1[n..] == digest[n..]
  {
    var s1 := Spliced(c, s, at, Encode(imei));
    var digest, old1 := c.HexDigest(s1[c.path]), Content(s, c.md5Path);
    PrefixCompletesIff(if kept then old1 else [], digest, n);
  }

  /** Writing the first `n` bytes of `d` over `f` gives `d` exactly if the rest is there. */
  lemma PrefixCompletesIff(f: seq<byte>, d: seq<byte>, n: nat)
    requires n < |d|
    ensures Splice(f, 0, d[..n]) == d <==> |f| == |d| && f[n..] == d[n..]
  {
    var r := Splice(f, 0, d[..n]);
    if |f| == |d| {
      forall k | n <= k < |d|
        ensures r[k] == f[n..][k - n] && d[k] == d[n..][k - n]
      {
      }
      if r == d {
        assert f[n..] == d[n..];
      }
    }
  }

  /** So an empty transfer can leave a valid pair at all exactly if that holds for the last
      byte: then the transfer may have been cut short just before it. */
  lemma FalseSuccessValidIff(c: Config, s: Files, at: nat, imei: CString, kept: bool)
    requires c.Distinct() && c.Usable() && HexImei(imei)
    requires Sized(c, Spliced(c, s, at, Encode(imei)), c.path)
    ensures var old1 := Content(s, c.md5Path);
            var digest := c.HexDigest(Spliced(c, s, at, Encode(imei))[c.path]);
            (exists h :: DigestCutShort(c, s, at, imei, kept, h) && PrimaryValid(c, h))
            <==> kept && |old1| == MD5_DIGEST_LENGTH_ASCII && old1[31] == digest[31]
  {
    if h: Files :| DigestCutShort(c, s, at, imei, kept, h) && PrimaryValid(c, h) {
      LastByteKept(c, s, at, imei, kept, h);
    }
    if kept && |Content(s, c.md5Path)| == MD5_DIGEST_LENGTH_ASCII
       && Content(s, c.md5Path)[31] == c.HexDigest(Spliced(c, s, at, Encode(imei))[c.path])[31] {
      var h := CutBeforeLast(c, s, at, imei);
    }
  }

  lemma LastByteKept(c: Config, s: Files, at: nat, imei: CString, kept: bool, h: Files)
    requires c.Distinct() && c.Usable() && HexImei(imei)
    requires DigestCutShort(c, s, at, imei, kept, h) && PrimaryValid(c, h)
    ensures var old1 := Content(s, c.md5Path);
            kept && |old1| == MD5_DIGEST_LENGTH_ASCII
            && old1[31] == c.HexDigest(Spliced(c, s, at, Encode(imei))[c.path])[31]
  {
    var s1, old1 := Spliced(c, s, at, Encode(imei)), Content(s, c.md5Path);
    var digest := c.HexDigest(s1[c.path]);
    var n :| 0 <= n < |digest|
             && h == Written(Unlinked(s1, c.md5Path, kept), c.md5Path, 0, digest[..n]);
    FalseSuccessAt(c, s, at, imei, kept, n);
    assert old1[31] == old1[n..][31 - n] && digest[31] == digest[n..][31 - n];
  }

  lemma CutBeforeLast(c: Config, s: Files, at: nat, imei: CString) returns (h: Files)
    requires c.Distinct() && c.Usable() && HexImei(imei)
    requires Sized(c, Spliced(c, s, at, Encode(imei)), c.path)
    requires var old1 := Content(s, c.md5Path);
             |old1| == MD5_DIGEST_LENGTH_ASCII
             && old1[31] == c.HexDigest(Spliced(c, s, at, Encode(imei))[c.path])[31]
    ensures DigestCutShort(c, s, at, imei, true, h) && PrimaryValid(c, h)
  {
    var s1, old1 := Spliced(c, s, at, Encode(imei)), Content(s, c.md5Path);
    var digest := c.HexDigest(s1[c.path]);
    h := Written(Unlinked(s1, c.md5Path, true), c.md5Path, 0, digest[..31]);
    FalseSuccessAt(c, s, at, imei, true, 31);
    assert old1[31..] == [old1[31]] && digest[31..] == [digest[31]];
    assert CutShort(Unlinked(s1, c.md5Path, true), c.md5Path, 0, digest, h);
  }

  /** Status 0 without a valid pair: an empty transfer of the digest, after the old digest
      file has been unlinked, leaves a pair that never validates, and only a valid backup
      can still be loaded. */
  lemma FalseSuccessInvalid(c: Config, s: Files, at: nat, imei: CString, h: Files)
    requires c.Distinct() && c.Usable() && HexImei(imei)
    requires DigestCutShort(c, s, at, imei, false, h)
    ensures !PrimaryValid(c, h)
    ensures LoadResult(c, h).Some? <==> BackupValid(c, s)
  {
  }

  /** Such a state exists for every file in which the IMEI fits. */
  lemma FalseSuccessExists(c: Config, s: Files, at: nat, imei: CString)
    requires c.Distinct() && c.Usable() && HexImei(imei)
    requires Sized(c, s, c.path) && at + IMEI_BYTES <= c.size
    ensures exists h :: DigestCutShort(c, s, at, imei, false, h) && !PrimaryValid(c, h)
  {
    var s1 := Spliced(c, s, at, Encode(imei));
    var digest := c.HexDigest(s1[c.path]);
    var h := Written(Unlinked(s1, c.md5Path, false), c.md5Path, 0, digest[..0]);
    assert DigestCutShort(c, s, at, imei, false, h);
    FalseSuccessInvalid(c, s, at, imei, h);
  }

  /** Eight bytes of memory from `at` on, where a buffer begins with `data` and `behind` is
      what lies behind it. */
  function MemoryAt(data: seq<byte>, behind: nat -> byte, at: nat): (b: seq<byte>)
    ensures |b| == IMEI_BYTES
  {
    seq(IMEI_BYTES, i requires 0 <= i < IMEI_BYTES =>
      if at + i < |data| then data[at + i] else behind(at + i - |data|))
  }

  /** The decoded IMEI is the one in the file, whatever lies behind the buffer, exactly if
      the offset is within the file: there is no check of it. */
  lemma ImeiInsideIff(data: seq<byte>, at: nat)
    ensures (forall x: nat -> byte, y: nat -> byte ::
               Decode(MemoryAt(data, x, at)) == Decode(MemoryAt(data, y, at)))
            <==> at + IMEI_BYTES <= |data|
    ensures at + IMEI_BYTES <= |data| ==>
              forall x: nat -> byte :: MemoryAt(data, x, at) == data[at..at + IMEI_BYTES]
  {
    if at + IMEI_BYTES > |data| {
      var x, y := (_: nat) => 0 as byte, (_: nat) => 0x11 as byte;
      var a, b := MemoryAt(data, x, at), MemoryAt(data, y, at);
      assert a[7] == 0 && b[7] == 0x11;
      assert Decode(a)[14] == HexDigit(0) && Decode(b)[14] == HexDigit(1);
    }
  }

  /** `read_imei`; `None` is failure, `behind` what lies behind its buffer in memory. */
  method ReadImei(store: NvStore, at: nat, behind: nat -> byte) returns (imei: Option<CString>)
    ensures imei.Some? ==>
              && store.c.path in store.fs.files && store.c.size <= |store.fs.files[store.c.path]|
              && imei.value == Decode(MemoryAt(store.fs.files[store.c.path][..store.c.size],
                                               behind, at))
    ensures !store.fs.faults && store.c.Usable() ==>
              (Sized(store.c, store.fs.files, store.c.path) ==> imei.Some?)
  {
    var c := store.c;
    var buffer := store.fs.FileDataRead(c.path, c.size, c.chunkSize, 0);
    if buffer.None? {
      return None;
    }
    assert buffer.value == store.fs.files[c.path][..c.size];
    var text := DecodeImei(MemoryAt(buffer.value, behind, at));
    return Some(text);
  }

  /** What `write_imei` stores is what `read_imei` shows and what the library loads; the
      pair validates exactly if no stale tail of the old digest file is left. */
  lemma ImeiEndToEnd(c: Config, s: Files, at: nat, imei: CString, kept: bool)
    requires c.Distinct() && c.Usable() && DecimalImei(imei) && HexImei(imei)
    requires at + IMEI_BYTES <= c.size
    requires Sized(c, Spliced(c, s, at, Encode(imei)), c.path)
    ensures var h := ImeiStored(c, s, at, imei, kept);
            && Sized(c, h, c.path)
            && Decode(h[c.path][at..at + IMEI_BYTES]) == imei
            && (PrimaryValid(c, h)
                <==> (kept ==> |Content(s, c.md5Path)| <= MD5_DIGEST_LENGTH_ASCII))
            && (PrimaryValid(c, h) ==> LoadResult(c, h) == Some(h[c.path]))
  {
    var s1 := Spliced(c, s, at, Encode(imei));
    SpliceWindow(Content(s, c.path), at, Encode(imei));
    DecodeEncode(imei);
    SpliceWhole(Content(Unlinked(s1, c.md5Path, kept), c.md5Path), c.HexDigest(s1[c.path]));
  }
}
