/** The XOR checksum of the boot images and the loops that send them with it. */
module BootImages {
  import opened Bytes
  import opened Framing
  import opened NvModel
  import opened NvStore

  const PSI_MAGIC: byte := 0x30
  const PSI_PADDING: byte := 0xFF
  const EBL_CHUNK := 0x4000

  // ---------------------------------------------------------------- the checksum

  /** The XOR of all bytes, as a C `unsigned char`. */
  function Crc(d: seq<byte>): bv8 {
    if d == [] then 0 else Crc(d[..|d| - 1]) ^ (d[|d| - 1] as bv8)
  }

  /** The checksum of a concatenation is the XOR of the checksums. */
  lemma {:induction false} CrcConcat(a: seq<byte>, b: seq<byte>)
    ensures Crc(a + b) == Crc(a) ^ Crc(b)
    decreases |b|
  {
    if b == [] {
      assert a + b == a;
      XorCancels(Crc(a));
    } else {
      var n := |b| - 1;
      assert (a + b)[..|a| + n] == a + b[..n];
      CrcConcat(a, b[..n]);
      XorAssociates(Crc(a), Crc(b[..n]), b[n] as bv8);
    }
  }

  lemma XorAssociates(x: bv8, y: bv8, z: bv8)
    ensures (x ^ y) ^ z == x ^ (y ^ z)
  {
  }

  lemma XorCancels(x: bv8)
    ensures x ^ 0 == x && 0 ^ x == x && x ^ x == 0
  {
  }

  /** A receiver that runs the checksum over an image and the checksum byte behind it gets
      zero exactly if that byte is the checksum of the image. */
  lemma CrcChecks(d: seq<byte>, x: byte)
    ensures Crc(d + [x]) == 0 <==> x as bv8 == Crc(d)
  {
    var c, y := Crc(d), x as bv8;
    assert (d + [x])[..|d|] == d;
    XorAssociates(c, y, y);
    XorCancels(c);
    XorCancels(y);
  }

  /** `xmm626_crc_calculate`. */
  method CrcCalculate(data: seq<byte>) returns (crc: bv8)
    ensures crc == Crc(data)
  {
    if |data| == 0 {
      return 0;
    }
    var p: nat := 0;
    var size: nat := |data|;
    crc := 0;
    while size > 0
      invariant p + size == |data| && crc == Crc(data[..p])
    {
      size := size - 1;
      assert data[..p + 1][..p] == data[..p];
      crc := crc ^ (data[p] as bv8);
      p := p + 1;
    }
    assert data[..p] == data;
  }

  // ---------------------------------------------------------------- the senders

  // What goes out in front of, for and behind an image.

  function Xmm616PsiBytes(psi: seq<byte>): seq<byte>
    requires |psi| < 0x1_0000
  {
    [PSI_MAGIC] + U16(|psi|) + psi + [Crc(psi) as byte]
  }

  /** A C `size_t` in memory; `wide` for machines on which it has eight bytes. */
  function SizeT(n: nat, wide: bool): (b: seq<byte>)
    ensures |b| == if wide then 8 else 4
  {
    U32(n % 0x1_0000_0000) + if wide then U32(n / 0x1_0000_0000) else []
  }

  function SizeLimit(wide: bool): nat {
    if wide then 0x1_0000_0000_0000_0000 else 0x1_0000_0000
  }

  function FromSizeT(b: seq<byte>): nat
    requires |b| == 4 || |b| == 8
  {
    FromU32(b[..4]) + if |b| == 8 then 0x1_0000_0000 * FromU32(b[4..]) else 0
  }

  /** The size that travels is the size of the image, on either machine. */
  lemma SizeTInverts(n: nat, wide: bool)
    requires n < SizeLimit(wide)
    ensures FromSizeT(SizeT(n, wide)) == n
  {
    var lo, hi := n % 0x1_0000_0000, n / 0x1_0000_0000;
    TwoWords(U32(lo), if wide then U32(hi) else []);
    WordInverts(lo);
    WordInverts(hi);
    assert n == 0x1_0000_0000 * hi + lo;
  }

  lemma WordInverts(v: nat)
    requires v < 0x1_0000_0000
    ensures FromU32(U32(v)) == v
  {
    FromU32Inverts(v);
  }

  lemma TwoWords(lo: seq<byte>, hi: seq<byte>)
    requires |lo| == 4 && |hi| in {0, 4}
    ensures FromSizeT(lo + hi) == FromU32(lo) + if hi == [] then 0 else 0x1_0000_0000 * FromU32(hi)
  {
    assert (lo + hi)[..4] == lo && (lo + hi)[4..] == hi;
  }

  function HsicEblBytes(ebl: seq<byte>, wide: bool): seq<byte> {
    SizeT(|ebl|, wide) + ebl + [Crc(ebl) as byte]
  }

  function HsicPsiBytes(psi: seq<byte>): seq<byte>
    requires |psi| < 0x1_0000
  {
    ([PSI_MAGIC] + U16(|psi|) + [PSI_PADDING]) + psi + [Crc(psi) as byte]
  }

  function MipiPsiBytes(psi: seq<byte>): seq<byte>
    requires |psi| < 0x1_0000
  {
    [PSI_PADDING, (|psi| / 256) as byte, (|psi| % 256) as byte, PSI_MAGIC] + psi
    + [0xFF, 0xFF, 0xFF, Crc(psi) as byte]
  }

  lemma CrcOne(x: byte)
    ensures Crc([]) == 0 && Crc([x]) == x as bv8
  {
    assert [x][..0] == [];
    XorCancels(x as bv8);
  }

  /** What a receiver parses: a magic byte, the size, the image, and the byte behind it that
      brings the checksum of both to zero. */
  lemma Xmm616PsiLayout(psi: seq<byte>)
    requires |psi| < 0x1_0000
    ensures var b := Xmm616PsiBytes(psi);
            && |b| == 3 + |psi| + 1
            && b[0] == 0x30 && b[1] as nat + 256 * b[2] as nat == |psi|
            && b[3..3 + |psi|] == psi && Crc(b[3..]) == 0
  {
    FromU16Inverts(|psi|);
    ImageAndCheck([PSI_MAGIC] + U16(|psi|), psi);
  }

  /** Here the magic byte is followed by the size and a padding byte. */
  lemma HsicPsiLayout(psi: seq<byte>)
    requires |psi| < 0x1_0000
    ensures var b := HsicPsiBytes(psi);
            && |b| == 4 + |psi| + 1
            && b[0] == 0x30 && b[1] as nat + 256 * b[2] as nat == |psi| && b[3] == 0xFF
            && b[4..4 + |psi|] == psi && Crc(b[4..]) == 0
  {
    FromU16Inverts(|psi|);
    ImageAndCheck([PSI_MAGIC] + U16(|psi|) + [PSI_PADDING], psi);
  }

  /** Here the size comes most significant byte first between padding and magic, and three
      bytes 0xFF stand in front of the checksum of the image. */
  lemma MipiPsiLayout(psi: seq<byte>)
    requires |psi| < 0x1_0000
    ensures var b, n := MipiPsiBytes(psi), 4 + |psi|;
            && |b| == n + 4
            && b[0] == 0xFF && 256 * b[1] as nat + b[2] as nat == |psi| && b[3] == 0x30
            && b[4..n] == psi
            && b[n] == 0xFF && b[n + 1] == 0xFF && b[n + 2] == 0xFF && Crc(psi + [b[n + 3]]) == 0
  {
    CrcChecks(psi, Crc(psi) as byte);
    assert MipiPsiBytes(psi)[4..4 + |psi|] == psi;
  }

  /** Here a `size_t` stands in front of the image. */
  lemma HsicEblLayout(ebl: seq<byte>, wide: bool)
    requires |ebl| < SizeLimit(wide)
    ensures var b, h := HsicEblBytes(ebl, wide), if wide then 8 else 4;
            && |b| == h + |ebl| + 1
            && Word(b) + (if wide then 0x1_0000_0000 * Word(b[4..]) else 0) == |ebl|
            && b[h..h + |ebl|] == ebl && Crc(b[h..]) == 0
  {
    var b, lo, hi := HsicEblBytes(ebl, wide), |ebl| % 0x1_0000_0000, |ebl| / 0x1_0000_0000;
    ImageAndCheck(SizeT(|ebl|, wide), ebl);
    assert U32(lo) <= b;
    WordIsU32(lo, b);
    if wide {
      assert U32(hi) <= b[4..];
      WordIsU32(hi, b[4..]);
    }
  }

  lemma ImageAndCheck(head: seq<byte>, d: seq<byte>)
    ensures var b, h := head + d + [Crc(d) as byte], |head|;
            b[..h] == head && b[h..h + |d|] == d && Crc(b[h..]) == 0
  {
    CrcChecks(d, Crc(d) as byte);
    ThreeParts(head, d, [Crc(d) as byte]);
  }

  lemma ThreeParts(a: seq<byte>, b: seq<byte>, c: seq<byte>)
    ensures var all := a + b + c;
            all[..|a|] == a && all[|a|..|a| + |b|] == b && all[|a|..] == b + c
  {
  }

  /** On such a link every write transfers everything. */
  predicate Dependable(link: Link)
    reads link
  {
    !link.faults && link.stalls == 0 && link.whole
  }

  /** A write that must transfer everything it is given. */
  method WriteExactly(link: Link, d: seq<byte>) returns (ok: bool)
    requires d != []
    modifies link`wire, link`stalls
    ensures ok ==> link.wire == old(link.wire) + d
    ensures old(link.wire) <= link.wire <= old(link.wire) + d
    ensures old(Dependable(link)) ==> ok && Dependable(link)
  {
    var rc := link.Write(d);
    ok := rc >= |d|;
  }

  /** The part of `xmm616_psi_send` after the handshake: magic, size, then byte by byte
      with a running checksum, then the checksum. */
  method Xmm616PsiSend(link: Link, psi: seq<byte>) returns (rc: int)
    requires |psi| < 0x1_0000
    modifies link`wire, link`stalls
    ensures rc == 0 || rc == -1
    ensures rc == 0 ==> psi != []
    ensures rc == 0 ==> link.wire == old(link.wire) + Xmm616PsiBytes(psi)
    ensures old(link.wire) <= link.wire <= old(link.wire) + Xmm616PsiBytes(psi)
    ensures old(Dependable(link)) ==> (rc == 0 <==> psi != [])
  {
    if |psi| == 0 {
      return -1;
    }
    var ok := WriteExactly(link, [PSI_MAGIC]);
    if !ok {
      return -1;
    }
    ok := WriteExactly(link, U16(|psi|));
    if !ok {
      return -1;
    }
    var crc: bv8;
    ok, crc := BytesSend(link, psi);
    if !ok {
      return -1;
    }
    ok := WriteExactly(link, [crc as byte]);
    return if ok then 0 else -1;
  }

  /** Its byte loop. */
  method BytesSend(link: Link, psi: seq<byte>) returns (ok: bool, crc: bv8)
    modifies link`wire, link`stalls
    ensures ok ==> link.wire == old(link.wire) + psi && crc == Crc(psi)
    ensures old(link.wire) <= link.wire <= old(link.wire) + psi
    ensures old(Dependable(link)) ==> ok && Dependable(link)
  {
    ghost var before := link.wire;
    crc := 0;
    for i := 0 to |psi|
      invariant link.wire == before + psi[..i] && crc == Crc(psi[..i])
      invariant old(Dependable(link)) ==> Dependable(link)
    {
      ok := WriteExactly(link, [psi[i]]);
      if !ok {
        return;
      }
      assert psi[..i] + [psi[i]] == psi[..i + 1] && psi[..i + 1][..i] == psi[..i];
      crc := crc ^ (psi[i] as bv8);
    }
    assert psi[..|psi|] == psi;
    ok := true;
  }

  /** The write loop of `xmm626_hsic_ebl_send`. */
  method ChunksSend(link: Link, ebl: seq<byte>) returns (ok: bool)
    modifies link`wire, link`stalls
    ensures ok ==> link.wire == old(link.wire) + ebl
    ensures old(link.wire) <= link.wire <= old(link.wire) + ebl
    ensures old(Dependable(link)) ==> ok && Dependable(link)
  {
    ghost var before := link.wire;
    var wc := 0;
    while wc < |ebl|
      invariant wc <= |ebl| && link.stalls <= old(link.stalls)
      invariant link.wire == before + ebl[..wc]
    {
      var count := if EBL_CHUNK < |ebl| - wc then EBL_CHUNK else |ebl| - wc;
      var wrote := link.Write(ebl[wc..wc + count]);
      if wrote <= 0 {
        return false;
      }
      TakeTwice(ebl, wc, count, wrote);
      wc := wc + wrote;
    }
    assert ebl[..wc] == ebl;
    ok := true;
  }

  lemma TakeTwice(s: seq<byte>, i: nat, n: nat, m: nat)
    requires m <= n && i + n <= |s|
    ensures s[..i] + s[i..i + n][..m] == s[..i + m]
  {
  }

  /** `xmm626_hsic_ebl_send`: size, image, checksum. */
  method HsicEblSend(link: Link, ebl: seq<byte>, wide: bool) returns (rc: int)
    requires |ebl| < SizeLimit(wide)
    modifies link`wire, link`stalls
    ensures rc == 0 || rc == -1
    ensures rc == 0 ==> ebl != []
    ensures rc == 0 ==> link.wire == old(link.wire) + HsicEblBytes(ebl, wide)
    ensures old(link.wire) <= link.wire <= old(link.wire) + HsicEblBytes(ebl, wide)
    ensures old(Dependable(link)) ==> (rc == 0 <==> ebl != [])
  {
    if |ebl| == 0 {
      return -1;
    }
    rc := SizedEblSend(link, SizeT(|ebl|, wide), ebl);
  }

  /** The same with the size as the bytes in memory. */
  method SizedEblSend(link: Link, size: seq<byte>, ebl: seq<byte>) returns (rc: int)
    requires size != []
    modifies link`wire, link`stalls
    ensures rc == 0 || rc == -1
    ensures rc == 0 ==> link.wire == old(link.wire) + (size + ebl + [Crc(ebl) as byte])
    ensures old(link.wire) <= link.wire <= old(link.wire) + (size + ebl + [Crc(ebl) as byte])
    ensures old(Dependable(link)) ==> rc == 0
  {
    var ok := WriteExactly(link, size);
    if !ok {
      return -1;
    }
    ok := ChunksSend(link, ebl);
    if !ok {
      return -1;
    }
    var crc := CrcCalculate(ebl);
    ok := WriteExactly(link, [crc as byte]);
    return if ok then 0 else -1;
  }

  /** The loop that writes what remains, in `xmm626_hsic_psi_send`, `xmm626_mipi_psi_send`,
      `xmm616_firmware_send` and `xmm616_nv_data_send`. */
  method WriteRemaining(link: Link, d: seq<byte>) returns (rc: int)
    modifies link`wire, link`stalls
    ensures rc == 0 || rc == -1
    ensures rc == 0 ==> link.wire == old(link.wire) + d
    ensures old(link.wire) <= link.wire <= old(link.wire) + d
    ensures !link.faults && old(link.stalls) == 0 ==> rc == 0 && link.stalls == 0
  {
    var wc := 0;
    while wc < |d|
      invariant wc <= |d| && link.stalls <= old(link.stalls)
      invariant link.wire == old(link.wire) + d[..wc]
    {
      var wrote := link.Write(d[wc..]);
      if wrote <= 0 {
        return -1;
      }
      assert d[..wc] + d[wc..][..wrote] == d[..wc + wrote];
      wc := wc + wrote;
    }
    assert d[..wc] == d;
    return 0;
  }

  /** The image part of `xmm626_hsic_psi_send`: header, image, checksum. */
  method HsicPsiSend(link: Link, psi: seq<byte>) returns (rc: int)
    requires |psi| < 0x1_0000
    modifies link`wire, link`stalls
    ensures rc == 0 || rc == -1
    ensures rc == 0 ==> psi != []
    ensures rc == 0 ==> link.wire == old(link.wire) + HsicPsiBytes(psi)
    ensures old(link.wire) <= link.wire <= old(link.wire) + HsicPsiBytes(psi)
    ensures old(Dependable(link)) ==> (rc == 0 <==> psi != [])
  {
    if |psi| == 0 {
      return -1;
    }
    var ok := WriteExactly(link, [PSI_MAGIC] + U16(|psi|) + [PSI_PADDING]);
    if !ok {
      return -1;
    }
    rc := WriteRemaining(link, psi);
    if rc < 0 {
      return -1;
    }
    var crc := CrcCalculate(psi);
    ok := WriteExactly(link, [crc as byte]);
    return if ok then 0 else -1;
  }

  /** The image part of `xmm626_mipi_psi_send`: here the size is in network order, and the
      checksum is the high byte of an `int` whose other bytes are 0xFF. */
  method MipiPsiSend(link: Link, psi: seq<byte>) returns (rc: int)
    requires |psi| < 0x1_0000
    modifies link`wire, link`stalls
    ensures rc == 0 || rc == -1
    ensures rc == 0 ==> psi != []
    ensures rc == 0 ==> link.wire == old(link.wire) + MipiPsiBytes(psi)
    ensures old(link.wire) <= link.wire <= old(link.wire) + MipiPsiBytes(psi)
    ensures old(Dependable(link)) ==> (rc == 0 <==> psi != [])
  {
    if |psi| == 0 {
      return -1;
    }
    var swapped := |psi| / 256 % 256 + |psi| % 256 * 256;
    SwappedBytes(|psi|);
    var header := [PSI_PADDING] + U16(swapped) + [PSI_MAGIC];
    var ok := WriteExactly(link, header);
    if !ok {
      return -1;
    }
    rc := WriteRemaining(link, psi);
    if rc < 0 {
      return -1;
    }
    var crc := CrcCalculate(psi);
    ok := WriteExactly(link, [0xFF, 0xFF, 0xFF, crc as byte]);
    return if ok then 0 else -1;
  }

  lemma SwappedBytes(n: nat)
    requires n < 0x1_0000
    ensures U16(n / 256 % 256 + n % 256 * 256) == [(n / 256) as byte, (n % 256) as byte]
  {
  }

  /** `xmm616_nv_data_send` over a device: on success what went out is the contents of a
      primary file that matches its digest. */
  method Xmm616NvDataSend(link: Link, store: NvStore) returns (rc: int)
    requires store.c.Distinct()
    modifies link`wire, link`stalls, store.fs`files, store.fs`history, store.fs`emptyWrites
    ensures rc == 0 || rc == -1
    ensures rc == 0 ==>
              && PrimaryValid(store.c, store.fs.files)
              && link.wire == old(link.wire) + store.fs.files[store.c.path]
    ensures !link.faults && old(link.stalls) == 0 && !store.fs.faults && store.c.Usable() ==>
              (rc == 0 <==> SomeCopy(store.c, old(store.fs.files)))
  {
    if store.c.size == 0 {
      return -1;
    }
    var nvData := store.Load();
    if nvData.None? {
      return -1;
    }
    rc := WriteRemaining(link, nvData.value);
  }
}
