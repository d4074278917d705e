/** The flash loaders of the XMM626 modem, over HSIC and over MIPI: images are cut into
    checksummed commands.  The modem is an interpreter of these commands, which is an
    assumption about the peer: a set-address command sets a write pointer, a write-block
    command stores its payload there and advances the pointer. */
module Flash {
  import opened Bytes

  const FLASH_SET_ADDRESS: ushort := 0x802
  const FLASH_WRITE_BLOCK: ushort := 0x804
  const FIRMWARE_ADDRESS := 0x6030_0000
  const NV_DATA_ADDRESS := 0x60E8_0000
  const MPS_DATA_ADDRESS := 0x6108_0000

  const HSIC_HEADER_SIZE := 8
  const HSIC_COMMAND_DATA_SIZE := 0x4000
  const HSIC_CHUNK := 0x4000

  const MIPI_HEADER_SIZE := 10
  const MIPI_HEADER_MAGIC := 0x02
  const MIPI_FOOTER_MAGIC := 0x03
  const MIPI_FOOTER_UNKNOWN := 0xEAEA
  const MIPI_CHUNK := 0xDF2

  // ---------------------------------------------------------------- the modem

  datatype Command = Command(code: ushort, data: seq<byte>)

  datatype Modem = Modem(addr: nat, mem: map<nat, byte>)

  /** Memory with `d` stored from address `at` on. */
  function Blit(mem: map<nat, byte>, at: nat, d: seq<byte>): map<nat, byte>
    decreases |d|
  {
    if d == [] then mem
    else
      var n := |d| - 1;
      Blit(mem, at, d[..n])[at + n := d[n]]
  }

  function Execute(m: Modem, c: Command): Modem {
    if c.code == FLASH_SET_ADDRESS && |c.data| == 4 then m.(addr := FromU32(c.data))
    else if c.code == FLASH_WRITE_BLOCK then
      Modem(m.addr + |c.data|, Blit(m.mem, m.addr, c.data))
    else m
  }

  function ExecuteAll(m: Modem, cs: seq<Command>): Modem
    decreases |cs|
  {
    if cs == [] then m else ExecuteAll(Execute(m, cs[0]), cs[1..])
  }

  /** The image `d` is in memory at `at`. */
  ghost predicate Holds(mem: map<nat, byte>, at: nat, d: seq<byte>) {
    forall x: nat {:trigger x in mem} | at <= x < at + |d| :: x in mem && mem[x] == d[x - at]
  }

  // ---------------------------------------------------------------- the commands of an image

  function Blocks(d: seq<byte>, chunk: nat): seq<Command>
    requires chunk > 0
  {
    if d == [] then []
    else
      var n := Min(chunk, |d|);
      [Command(FLASH_WRITE_BLOCK, d[..n])] + Blocks(d[n..], chunk)
  }

  /** A C `int` address as the four bytes that travel. */
  function AddressWord(address: int): (w: nat)
    ensures 0 <= address < 0x1_0000_0000 ==> w == address
  {
    address % 0x1_0000_0000
  }

  function FlashCommands(address: int, d: seq<byte>, chunk: nat): seq<Command>
    requires chunk > 0
  {
    [Command(FLASH_SET_ADDRESS, U32(AddressWord(address)))] + Blocks(d, chunk)
  }

  // ---------------------------------------------------------------- checksums

  function Sum(d: seq<byte>): nat {
    if d == [] then 0 else Sum(d[..|d| - 1]) + d[|d| - 1] as nat
  }

  function Checksum(c: Command): ushort {
    (|c.data| % 0x1_0000 + c.code + Sum(c.data)) % 0x1_0000
  }

  /** The accumulation loop of both `command_send` functions, in 16 bits throughout. */
  method ChecksumLoop(code: ushort, data: seq<byte>) returns (checksum: ushort)
    ensures checksum == Checksum(Command(code, data))
    ensures checksum == (|data| + code + Sum(data)) % 0x1_0000
  {
    AddWraps(|data|, code + Sum(data));
    checksum := (|data| % 0x1_0000 + code) % 0x1_0000;
    for i := 0 to |data|
      invariant checksum == (|data| % 0x1_0000 + code + Sum(data[..i])) % 0x1_0000
    {
      assert data[..i + 1][..i] == data[..i];
      AddWraps(|data| % 0x1_0000 + code + Sum(data[..i]), data[i] as nat);
      checksum := (checksum + data[i] as nat) % 0x1_0000;
    }
    assert data[..|data|] == data;
  }

  lemma SumOne(x: byte)
    ensures Sum([]) == 0 && Sum([x]) == x as nat
  {
    assert [x][..0] == [];
  }

  /** So the checksum of a packet is determined: `Sum` adds the bytes. */
  lemma {:induction false} SumConcat(a: seq<byte>, b: seq<byte>)
    ensures Sum(a + b) == Sum(a) + Sum(b)
    decreases |b|
  {
    if b == [] {
      assert a + b == a;
    } else {
      var n := |b| - 1;
      assert (a + b)[..|a| + n] == a + b[..n];
      SumConcat(a, b[..n]);
    }
  }

  lemma AddWraps(a: nat, b: nat)
    ensures (a % 0x1_0000 + b) % 0x1_0000 == (a + b) % 0x1_0000
  {
    var q := a / 0x1_0000;
    assert a + b == a % 0x1_0000 + b + 0x1_0000 * q;
    var x := a % 0x1_0000 + b;
    assert x + 0x1_0000 * q == 0x1_0000 * (x / 0x1_0000 + q) + x % 0x1_0000;
  }

  // ---------------------------------------------------------------- packets

  function HsicHeader(c: Command): (h: seq<byte>)
    ensures |h| == HSIC_HEADER_SIZE
  {
    U16(Checksum(c)) + U16(c.code) + U32(|c.data|)
  }

  /** An HSIC command: header, payload, zero padding up to `total` payload bytes. */
  function HsicPacket(c: Command, total: nat): seq<byte>
    requires |c.data| <= total
  {
    HsicHeader(c) + c.data + Zeros(total - |c.data|)
  }

  /** A receiver that truncates to the announced size and recomputes the checksum. */
  function HsicParse(p: seq<byte>): Option<Command> {
    if |p| < HSIC_HEADER_SIZE then None
    else
      var size := FromU32(p[4..8]);
      if |p| < HSIC_HEADER_SIZE + size then None
      else
        var c := Command(FromU16(p[2..4]), p[HSIC_HEADER_SIZE..HSIC_HEADER_SIZE + size]);
        if FromU16(p[..2]) == Checksum(c) then Some(c) else None
  }

  function MipiHeader(c: Command): (h: seq<byte>)
    ensures |h| == MIPI_HEADER_SIZE
  {
    U32(|c.data| + MIPI_HEADER_SIZE) + U16(MIPI_HEADER_MAGIC) + U16(c.code) + U16(|c.data|)
  }

  function MipiFooter(c: Command, shortFooter: bool): (f: seq<byte>)
    ensures |f| == if shortFooter then 4 else 6
  {
    U16(Checksum(c)) + U16(MIPI_FOOTER_MAGIC)
    + if shortFooter then [] else U16(MIPI_FOOTER_UNKNOWN)
  }

  function MipiPacket(c: Command, shortFooter: bool): seq<byte> {
    MipiHeader(c) + c.data + MipiFooter(c, shortFooter)
  }

  function MipiParse(p: seq<byte>): Option<Command> {
    if |p| < MIPI_HEADER_SIZE || FromU16(p[4..6]) != MIPI_HEADER_MAGIC then None
    else
      var size := FromU16(p[8..10]);
      var end := MIPI_HEADER_SIZE + size;
      if |p| < end + 4 || FromU32(p[..4]) != end then None
      else
        var c := Command(FromU16(p[6..8]), p[MIPI_HEADER_SIZE..end]);
        if FromU16(p[end..end + 2]) == Checksum(c) && FromU16(p[end + 2..end + 4]) == MIPI_FOOTER_MAGIC
        then Some(c) else None
  }

  lemma HsicHeaderFields(c: Command)
    requires |c.data| < 0x1_0000_0000
    ensures var h := HsicHeader(c);
            && FromU16(h[..2]) == Checksum(c) && FromU16(h[2..4]) == c.code
            && FromU32(h[4..8]) == |c.data|
  {
    HsicHeaderValues(Checksum(c), c.code, |c.data|);
  }

  lemma HsicHeaderValues(x: ushort, y: ushort, z: nat)
    requires z < 0x1_0000_0000
    ensures var h := U16(x) + U16(y) + U32(z);
            FromU16(h[..2]) == x && FromU16(h[2..4]) == y && FromU32(h[4..8]) == z
  {
    FromU16Inverts(x);
    FromU16Inverts(y);
    FromU32Inverts(z);
    Fields(U16(x), U16(y), U32(z), []);
  }

  /** Fields of two, two and four bytes. */
  lemma Fields(a: seq<byte>, b: seq<byte>, c: seq<byte>, d: seq<byte>)
    requires |a| == 2 && |b| == 2 && |c| == 4
    ensures var h := a + b + c + d; h[..2] == a && h[2..4] == b && h[4..8] == c && h[8..] == d
    ensures d == [] ==> a + b + c + d == a + b + c
  {
  }

  /** The receiver recomputes the checksum and accepts, whatever the padding. */
  lemma HsicParseInverts(c: Command, total: nat)
    requires |c.data| <= total && |c.data| < 0x1_0000_0000
    ensures HsicParse(HsicPacket(c, total)) == Some(c)
  {
    var p, h := HsicPacket(c, total), HsicHeader(c);
    HsicHeaderFields(c);
    assert p[..2] == h[..2] && p[2..4] == h[2..4] && p[4..8] == h[4..8];
    assert p[8..8 + |c.data|] == c.data;
  }

  lemma MipiHeaderFields(c: Command)
    requires |c.data| + MIPI_HEADER_SIZE < 0x1_0000_0000
    ensures var h := MipiHeader(c);
            && FromU32(h[..4]) == |c.data| + MIPI_HEADER_SIZE
            && FromU16(h[4..6]) == MIPI_HEADER_MAGIC
            && FromU16(h[6..8]) == c.code && FromU16(h[8..10]) == |c.data| % 0x1_0000
  {
    MipiHeaderLength(c);
    MipiHeaderShorts(U32(|c.data| + MIPI_HEADER_SIZE), MIPI_HEADER_MAGIC, c.code, |c.data|);
  }

  lemma MipiHeaderLength(c: Command)
    requires |c.data| + MIPI_HEADER_SIZE < 0x1_0000_0000
    ensures FromU32(MipiHeader(c)[..4]) == |c.data| + MIPI_HEADER_SIZE
  {
    HeaderLength(|c.data| + MIPI_HEADER_SIZE, U16(MIPI_HEADER_MAGIC), U16(c.code), U16(|c.data|));
  }

  lemma HeaderLength(n: nat, b: seq<byte>, c: seq<byte>, d: seq<byte>)
    requires n < 0x1_0000_0000 && |b| == 2 && |c| == 2 && |d| == 2
    ensures FromU32((U32(n) + b + c + d)[..4]) == n
  {
    HeaderParts(U32(n), b, c, d);
    FromU32Inverts(n);
  }

  lemma MipiHeaderShorts(a: seq<byte>, x: nat, y: nat, z: nat)
    requires |a| == 4
    ensures var h := a + U16(x) + U16(y) + U16(z);
            && FromU16(h[4..6]) == x % 0x1_0000 && FromU16(h[6..8]) == y % 0x1_0000
            && FromU16(h[8..10]) == z % 0x1_0000
  {
    HeaderParts(a, U16(x), U16(y), U16(z));
    FromU16Inverts(x);
    FromU16Inverts(y);
    FromU16Inverts(z);
  }

  /** Fields of four, two, two and two bytes. */
  lemma HeaderParts(a: seq<byte>, b: seq<byte>, c: seq<byte>, d: seq<byte>)
    requires |a| == 4 && |b| == 2 && |c| == 2 && |d| == 2
    ensures var h := a + b + c + d;
            h[..4] == a && h[4..6] == b && h[6..8] == c && h[8..10] == d
  {
  }

  lemma MipiFooterFields(c: Command, shortFooter: bool)
    ensures var f := MipiFooter(c, shortFooter);
            FromU16(f[..2]) == Checksum(c) && FromU16(f[2..4]) == MIPI_FOOTER_MAGIC
  {
    var f := MipiFooter(c, shortFooter);
    FromU16Inverts(Checksum(c));
    FromU16Inverts(MIPI_FOOTER_MAGIC);
    assert f[..2] == U16(Checksum(c)) && f[2..4] == U16(MIPI_FOOTER_MAGIC);
  }

  /** `p` begins as a packet of `c` does; the size field has 16 bits. */
  ghost predicate MipiFields(p: seq<byte>, c: Command) {
    var n := MIPI_HEADER_SIZE + |c.data|;
    && |p| >= n + 4
    && FromU32(p[..4]) == n && FromU16(p[4..6]) == MIPI_HEADER_MAGIC
    && FromU16(p[6..8]) == c.code && FromU16(p[8..10]) == |c.data| % 0x1_0000
    && p[MIPI_HEADER_SIZE..n] == c.data
    && FromU16(p[n..n + 2]) == Checksum(c)
    && FromU16(p[n + 2..n + 4]) == MIPI_FOOTER_MAGIC
  }

  lemma MipiPacketFields(c: Command, shortFooter: bool)
    requires |c.data| + MIPI_HEADER_SIZE < 0x1_0000_0000
    ensures MipiFields(MipiPacket(c, shortFooter), c)
  {
    var p, h, f := MipiPacket(c, shortFooter), MipiHeader(c), MipiFooter(c, shortFooter);
    var n := MIPI_HEADER_SIZE + |c.data|;
    MipiHeaderFields(c);
    MipiFooterFields(c, shortFooter);
    assert p[..4] == h[..4] && p[4..6] == h[4..6] && p[6..8] == h[6..8] && p[8..10] == h[8..10];
    assert p[n..n + 2] == f[..2] && p[n + 2..n + 4] == f[2..4];
  }

  /** The 16-bit size field of MIPI carries a command exactly if it is shorter than 64 KiB. */
  lemma MipiParseInverts(c: Command, shortFooter: bool)
    requires |c.data| + MIPI_HEADER_SIZE < 0x1_0000_0000
    ensures MipiParse(MipiPacket(c, shortFooter)) == Some(c) <==> |c.data| < 0x1_0000
  {
    MipiPacketFields(c, shortFooter);
    MipiParseFields(MipiPacket(c, shortFooter), c);
  }

  lemma MipiParseFields(p: seq<byte>, c: Command)
    requires MipiFields(p, c)
    ensures MipiParse(p) == Some(c) <==> |c.data| < 0x1_0000
  {
  }

  // ---------------------------------------------------------------- streams of packets

  function HsicPackets(cs: seq<Command>): (ps: seq<seq<byte>>)
    requires forall c | c in cs :: |c.data| <= HSIC_COMMAND_DATA_SIZE
    ensures |ps| == |cs|
    ensures forall i | 0 <= i < |cs| :: ps[i] == HsicPacket(cs[i], HSIC_COMMAND_DATA_SIZE)
  {
    seq(|cs|, i requires 0 <= i < |cs| => HsicPacket(cs[i], HSIC_COMMAND_DATA_SIZE))
  }

  /** Only the blocks have the short footer. */
  function MipiPackets(cs: seq<Command>): (ps: seq<seq<byte>>)
    ensures |ps| == |cs|
    ensures forall i | 0 <= i < |cs| ::
              ps[i] == MipiPacket(cs[i], cs[i].code == FLASH_WRITE_BLOCK)
  {
    seq(|cs|, i requires 0 <= i < |cs| => MipiPacket(cs[i], cs[i].code == FLASH_WRITE_BLOCK))
  }

  /** A modem fed with packets; what does not parse is ignored. */
  function Feed(m: Modem, cs: seq<Option<Command>>): Modem
    decreases |cs|
  {
    if cs == [] then m
    else Feed(if cs[0].Some? then Execute(m, cs[0].value) else m, cs[1..])
  }

  function HsicParsed(ps: seq<seq<byte>>): seq<Option<Command>> {
    seq(|ps|, i requires 0 <= i < |ps| => HsicParse(ps[i]))
  }

  function MipiParsed(ps: seq<seq<byte>>): seq<Option<Command>> {
    seq(|ps|, i requires 0 <= i < |ps| => MipiParse(ps[i]))
  }

  function HsicReplay(m: Modem, ps: seq<seq<byte>>): Modem {
    Feed(m, HsicParsed(ps))
  }

  function MipiReplay(m: Modem, ps: seq<seq<byte>>): Modem {
    Feed(m, MipiParsed(ps))
  }

  function Wrapped(cs: seq<Command>): seq<Option<Command>> {
    seq(|cs|, i requires 0 <= i < |cs| => Some(cs[i]))
  }

  lemma {:induction false} FeedExecutes(m: Modem, cs: seq<Command>)
    ensures Feed(m, Wrapped(cs)) == ExecuteAll(m, cs)
    decreases |cs|
  {
    if cs != [] {
      FeedExecutes(Execute(m, cs[0]), cs[1..]);
      assert Wrapped(cs)[1..] == Wrapped(cs[1..]);
    }
  }

  lemma {:induction false} FeedConcat(m: Modem, a: seq<Option<Command>>, b: seq<Option<Command>>)
    ensures Feed(m, a + b) == Feed(Feed(m, a), b)
    decreases |a|
  {
    if a == [] {
      assert a + b == b;
    } else {
      FeedConcat(if a[0].Some? then Execute(m, a[0].value) else m, a[1..], b);
      assert (a + b)[1..] == a[1..] + b;
    }
  }

  lemma HsicReplayExecutes(m: Modem, cs: seq<Command>)
    requires forall c | c in cs :: |c.data| <= HSIC_COMMAND_DATA_SIZE
    ensures HsicReplay(m, HsicPackets(cs)) == ExecuteAll(m, cs)
  {
    var ps := HsicPackets(cs);
    forall i | 0 <= i < |cs|
      ensures HsicParsed(ps)[i] == Some(cs[i])
    {
      HsicParseInverts(cs[i], HSIC_COMMAND_DATA_SIZE);
    }
    assert HsicParsed(ps) == Wrapped(cs);
    FeedExecutes(m, cs);
  }

  lemma MipiReplayExecutes(m: Modem, cs: seq<Command>)
    requires forall c | c in cs :: |c.data| < 0x1_0000
    ensures MipiReplay(m, MipiPackets(cs)) == ExecuteAll(m, cs)
  {
    var ps := MipiPackets(cs);
    forall i | 0 <= i < |cs|
      ensures MipiParsed(ps)[i] == Some(cs[i])
    {
      MipiParseInverts(cs[i], cs[i].code == FLASH_WRITE_BLOCK);
    }
    assert MipiParsed(ps) == Wrapped(cs);
    FeedExecutes(m, cs);
  }

  // ---------------------------------------------------------------- reconstruction

  /** Inside the window the stored bytes, outside what was there. */
  lemma {:induction false} BlitAt(mem: map<nat, byte>, at: nat, d: seq<byte>, i: nat)
    ensures i in Blit(mem, at, d) <==> i in mem || at <= i < at + |d|
    ensures at <= i < at + |d| ==> Blit(mem, at, d)[i] == d[i - at]
    ensures i in mem && !(at <= i < at + |d|) ==> Blit(mem, at, d)[i] == mem[i]
    decreases |d|
  {
    if d != [] {
      BlitAt(mem, at, d[..|d| - 1], i);
    }
  }

  lemma {:induction false} BlitAdjacent(mem: map<nat, byte>, at: nat, a: seq<byte>, b: seq<byte>)
    ensures Blit(Blit(mem, at, a), at + |a|, b) == Blit(mem, at, a + b)
    decreases |b|
  {
    if b == [] {
      assert a + b == a;
    } else {
      var n := |b| - 1;
      BlitAdjacent(mem, at, a, b[..n]);
      assert (a + b)[..|a| + n] == a + b[..n];
    }
  }

  lemma ExecuteBlock(m: Modem, d: seq<byte>)
    ensures Execute(m, Command(FLASH_WRITE_BLOCK, d)) == Modem(m.addr + |d|, Blit(m.mem, m.addr, d))
  {
  }

  lemma FirstBlock(d: seq<byte>, chunk: nat)
    requires chunk > 0 && d != []
    ensures var n, cs := Min(chunk, |d|), Blocks(d, chunk);
            cs != [] && cs[0] == Command(FLASH_WRITE_BLOCK, d[..n]) && cs[1..] == Blocks(d[n..], chunk)
  {
  }

  /** `m` after `d` has been stored at its write pointer. */
  function Loaded(m: Modem, d: seq<byte>): Modem {
    Modem(m.addr + |d|, Blit(m.mem, m.addr, d))
  }

  lemma LoadedInTwo(m: Modem, d: seq<byte>, n: nat)
    requires n <= |d|
    ensures Loaded(Loaded(m, d[..n]), d[n..]) == Loaded(m, d)
  {
    BlitAdjacent(m.mem, m.addr, d[..n], d[n..]);
    assert d[..n] + d[n..] == d;
  }

  lemma ExecuteNext(m: Modem, cs: seq<Command>, d: seq<byte>)
    requires cs != [] && cs[0] == Command(FLASH_WRITE_BLOCK, d)
    ensures ExecuteAll(m, cs) == ExecuteAll(Loaded(m, d), cs[1..])
  {
    ExecuteBlock(m, d);
  }

  lemma {:induction false} ExecuteBlocks(m: Modem, d: seq<byte>, chunk: nat)
    requires chunk > 0
    ensures ExecuteAll(m, Blocks(d, chunk)) == Loaded(m, d)
    decreases |d|
  {
    if d != [] {
      var n := Min(chunk, |d|);
      FirstBlock(d, chunk);
      ExecuteNext(m, Blocks(d, chunk), d[..n]);
      ExecuteBlocks(Loaded(m, d[..n]), d[n..], chunk);
      LoadedInTwo(m, d, n);
    }
  }

  lemma ExecuteFirst(m: Modem, c: Command, cs: seq<Command>)
    ensures ExecuteAll(m, [c] + cs) == ExecuteAll(Execute(m, c), cs)
  {
    assert ([c] + cs)[1..] == cs;
  }

  lemma ExecuteSetAddress(m: Modem, address: int)
    ensures Execute(m, Command(FLASH_SET_ADDRESS, U32(AddressWord(address))))
            == m.(addr := AddressWord(address))
  {
    FromU32Inverts(AddressWord(address));
  }

  /** Executing the commands of an image stores the image at its address and nothing
      else, for any way of cutting it. */
  lemma FlashReconstructs(m: Modem, address: int, d: seq<byte>, chunk: nat)
    requires chunk > 0
    ensures ExecuteAll(m, FlashCommands(address, d, chunk))
            == Modem(AddressWord(address) + |d|, Blit(m.mem, AddressWord(address), d))
  {
    var setAddress := Command(FLASH_SET_ADDRESS, U32(AddressWord(address)));
    ExecuteFirst(m, setAddress, Blocks(d, chunk));
    ExecuteSetAddress(m, address);
    ExecuteBlocks(m.(addr := AddressWord(address)), d, chunk);
  }

  lemma {:induction false} BlocksAreSmall(d: seq<byte>, chunk: nat)
    requires chunk > 0
    ensures forall c | c in Blocks(d, chunk) :: |c.data| <= chunk && c.code == FLASH_WRITE_BLOCK
    decreases |d|
  {
    if d != [] {
      BlocksAreSmall(d[Min(chunk, |d|)..], chunk);
    }
  }

  lemma FlashCommandsAreSmall(address: int, d: seq<byte>, chunk: nat)
    requires chunk >= 4
    ensures forall c | c in FlashCommands(address, d, chunk) :: |c.data| <= chunk
  {
    FromU32Inverts(AddressWord(address));
    BlocksAreSmall(d, chunk);
  }

  /** The HSIC packets of an image, in the order they are written. */
  function HsicStream(address: int, d: seq<byte>): seq<seq<byte>> {
    FlashCommandsAreSmall(address, d, HSIC_CHUNK);
    HsicPackets(FlashCommands(address, d, HSIC_CHUNK))
  }

  function MipiStream(address: int, d: seq<byte>): seq<seq<byte>> {
    MipiPackets(FlashCommands(address, d, MIPI_CHUNK))
  }

  /** Replaying either stream from any modem state leaves the image at its address and
      every other byte unchanged: the two transports agree. */
  lemma FlashStreamsAgree(m: Modem, address: int, d: seq<byte>)
    ensures HsicReplay(m, HsicStream(address, d))
            == Modem(AddressWord(address) + |d|, Blit(m.mem, AddressWord(address), d))
    ensures MipiReplay(m, MipiStream(address, d)) == HsicReplay(m, HsicStream(address, d))
  {
    FlashCommandsAreSmall(address, d, HSIC_CHUNK);
    FlashCommandsAreSmall(address, d, MIPI_CHUNK);
    HsicReplayExecutes(m, FlashCommands(address, d, HSIC_CHUNK));
    MipiReplayExecutes(m, FlashCommands(address, d, MIPI_CHUNK));
    FlashReconstructs(m, address, d, HSIC_CHUNK);
    FlashReconstructs(m, address, d, MIPI_CHUNK);
  }

  // ---------------------------------------------------------------- what stands where

  /** The bytes of an HSIC command: checksum, code, size, data, zeros. */
  lemma HsicPacketLayout(c: Command, total: nat)
    requires |c.data| <= total && |c.data| < 0x1_0000_0000
    ensures var p, n := HsicPacket(c, total), 8 + |c.data|;
            && |p| == 8 + total
            && p[0] as nat + 256 * p[1] as nat == (|c.data| + c.code + Sum(c.data)) % 0x1_0000
            && p[2] as nat + 256 * p[3] as nat == c.code
            && Word(p[4..]) == |c.data| && p[8..n] == c.data
            && forall k | n <= k < |p| :: p[k] == 0
  {
    var p, h := HsicPacket(c, total), HsicHeader(c);
    HsicHeaderFields(c);
    AddWraps(|c.data|, c.code + Sum(c.data));
    assert p[..2] == h[..2] && p[2..4] == h[2..4] && p[4..8] == h[4..8];
    WordIsFromU32(p[4..]);
    assert p[4..][..4] == p[4..8] && p[8..8 + |c.data|] == c.data;
  }

  /** The bytes of a MIPI command: whole size, magic, code and size, the data, checksum and
      magic, and two more bytes unless the footer is short. */
  lemma MipiPacketLayout(c: Command, shortFooter: bool)
    requires |c.data| + 10 < 0x1_0000_0000
    ensures var p, n := MipiPacket(c, shortFooter), 10 + |c.data|;
            && |p| == n + (if shortFooter then 4 else 6)
            && Word(p) == n && p[4] == 2 && p[5] == 0
            && p[6] as nat + 256 * p[7] as nat == c.code
            && p[8] as nat + 256 * p[9] as nat == |c.data| % 0x1_0000
            && p[10..n] == c.data
            && p[n] as nat + 256 * p[n + 1] as nat == (|c.data| + c.code + Sum(c.data)) % 0x1_0000
            && p[n + 2] == 3 && p[n + 3] == 0
            && (!shortFooter ==> p[n + 4] == 0xEA && p[n + 5] == 0xEA)
  {
    MipiPacketFields(c, shortFooter);
    MipiFieldBytes(MipiPacket(c, shortFooter), c);
    if !shortFooter {
      LongFooter(MipiHeader(c) + c.data, c);
    }
  }

  lemma MipiFieldBytes(p: seq<byte>, c: Command)
    requires MipiFields(p, c)
    ensures var n := 10 + |c.data|;
            && Word(p) == n && p[4] == 2 && p[5] == 0
            && p[6] as nat + 256 * p[7] as nat == c.code
            && p[8] as nat + 256 * p[9] as nat == |c.data| % 0x1_0000
            && p[n] as nat + 256 * p[n + 1] as nat == (|c.data| + c.code + Sum(c.data)) % 0x1_0000
            && p[n + 2] == 3 && p[n + 3] == 0
  {
    var n := 10 + |c.data|;
    AddWraps(|c.data|, c.code + Sum(c.data));
    WordIsFromU32(p);
    FieldBytes(p, 4);
    FieldBytes(p, 6);
    FieldBytes(p, 8);
    FieldBytes(p, n);
    FieldBytes(p, n + 2);
  }

  lemma LongFooter(p: seq<byte>, c: Command)
    ensures var q, n := p + MipiFooter(c, false), |p|; q[n + 4] == 0xEA && q[n + 5] == 0xEA
  {
  }

  lemma FieldBytes(p: seq<byte>, i: nat)
    requires i + 2 <= |p|
    ensures FromU16(p[i..i + 2]) == p[i] as nat + 256 * p[i + 1] as nat
  {
  }

  /** Block `k` of an image is the `k`-th window of `chunk` bytes. */
  lemma {:induction false} BlockAt(d: seq<byte>, chunk: nat, k: nat)
    requires chunk > 0
    ensures k < |Blocks(d, chunk)| <==> k * chunk < |d|
    ensures k < |Blocks(d, chunk)| ==>
              Blocks(d, chunk)[k] == Command(0x804, d[k * chunk..Min(k * chunk + chunk, |d|)])
    decreases k
  {
    if d != [] {
      FirstBlock(d, chunk);
      if k > 0 {
        var n := Min(chunk, |d|);
        assert k * chunk == (k - 1) * chunk + chunk;
        BlockAt(d[n..], chunk, k - 1);
        NonNegative(k - 1, chunk);
        if (k - 1) * chunk < |d[n..]| {
          assert Blocks(d, chunk)[k] == Blocks(d, chunk)[1..][k - 1];
          assert d[n..][(k - 1) * chunk..Min((k - 1) * chunk + chunk, |d| - n)]
              == d[k * chunk..Min(k * chunk + chunk, |d|)];
        }
      }
    } else {
      NonNegative(k, chunk);
    }
  }

  lemma NonNegative(a: nat, b: nat)
    ensures 0 <= a * b
  {
  }

  /** The commands of an image: its address, then its windows of `chunk` bytes in order. */
  lemma CommandsLayout(address: int, d: seq<byte>, chunk: nat, k: nat)
    requires chunk > 0
    ensures var cs := FlashCommands(address, d, chunk);
            && cs != [] && cs[0].code == 0x802 && |cs[0].data| == 4
            && Word(cs[0].data) == address % 0x1_0000_0000
            && (k + 1 < |cs| <==> k * chunk < |d|)
            && (k + 1 < |cs| ==>
                  cs[k + 1] == Command(0x804, d[k * chunk..Min(k * chunk + chunk, |d|)]))
  {
    BlockAt(d, chunk, k);
    WordIsU32(AddressWord(address), U32(AddressWord(address)));
  }

  /** The packets of an image over HSIC: a set-address command, then a write command for
      every 0x4000 bytes begun, each padded to the full size. */
  lemma HsicStreamLayout(address: int, d: seq<byte>, k: nat)
    ensures var ps := HsicStream(address, d);
            && ps != []
            && (exists word :: |word| == 4 && Word(word) == address % 0x1_0000_0000
                               && ps[0] == HsicPacket(Command(0x802, word), 0x4000))
            && (k + 1 < |ps| <==> 0x4000 * k < |d|)
            && (k + 1 < |ps| ==>
                  ps[k + 1] == HsicPacket(Command(0x804, d[0x4000 * k..Min(0x4000 * k + 0x4000, |d|)]),
                                          0x4000))
  {
    var cs := FlashCommands(address, d, HSIC_CHUNK);
    CommandsLayout(address, d, HSIC_CHUNK, k);
    FlashCommandsAreSmall(address, d, HSIC_CHUNK);
    assert cs[0] == Command(0x802, cs[0].data);
  }

  /** Over MIPI: blocks of 0xDF2 bytes, and only these have the short footer. */
  lemma MipiStreamLayout(address: int, d: seq<byte>, k: nat)
    ensures var ps := MipiStream(address, d);
            && ps != []
            && (exists word :: |word| == 4 && Word(word) == address % 0x1_0000_0000
                               && ps[0] == MipiPacket(Command(0x802, word), false))
            && (k + 1 < |ps| <==> 0xDF2 * k < |d|)
            && (k + 1 < |ps| ==>
                  ps[k + 1] == MipiPacket(Command(0x804, d[0xDF2 * k..Min(0xDF2 * k + 0xDF2, |d|)]),
                                          true))
  {
    var cs := FlashCommands(address, d, MIPI_CHUNK);
    CommandsLayout(address, d, MIPI_CHUNK, k);
    MipiPacketAt(cs, 0, 0x802, cs[0].data);
    if k + 1 < |cs| {
      MipiPacketAt(cs, k + 1, 0x804, d[0xDF2 * k..Min(0xDF2 * k + 0xDF2, |d|)]);
    }
  }

  lemma MipiPacketAt(cs: seq<Command>, i: nat, code: ushort, data: seq<byte>)
    requires i < |cs| && cs[i] == Command(code, data)
    ensures MipiPackets(cs)[i] == MipiPacket(Command(code, data), code == 0x804)
  {
  }

  // ---------------------------------------------------------------- interrupted streams

  /** `sent` is the beginning of `stream`, its last packet possibly cut short. */
  ghost predicate CutOff(sent: seq<seq<byte>>, stream: seq<seq<byte>>) {
    || sent <= stream
    || (0 < |sent| <= |stream| && sent[..|sent| - 1] <= stream
        && [] < sent[|sent| - 1] <= stream[|sent| - 1])
  }

  lemma CutOffBehind(done: seq<seq<byte>>, now: seq<seq<byte>>, left: seq<seq<byte>>)
    requires CutOff(now, left)
    ensures CutOff(done + now, done + left)
  {
    var a, b := done + now, done + left;
    if now <= left {
      assert a <= b;
    } else {
      var n := |now| - 1;
      assert a[..|a| - 1] == done + now[..n];
      assert a[|a| - 1] == now[n] && b[|a| - 1] == left[n];
    }
  }

  /** The beginning of a part is a beginning of the whole. */
  lemma CutOffEarly(now: seq<seq<byte>>, left: seq<seq<byte>>)
    requires left != [] && CutOff(now, left[..1])
    ensures CutOff(now, left)
  {
    if !(now <= left[..1]) {
      var n := |now| - 1;
      assert left[..1][n] == left[n];
    }
  }

  lemma CutOffAt(sent: seq<seq<byte>>, stream: seq<seq<byte>>, i: nat)
    requires CutOff(sent, stream) && i < |sent|
    ensures |sent| <= |stream| && sent[i] <= stream[i]
    ensures i < |sent| - 1 ==> sent[i] == stream[i]
  {
    if i < |sent| - 1 && !(sent <= stream) {
      assert sent[..|sent| - 1][i] == sent[i];
    }
  }

  /** A packet that is cut short is ignored or, if only padding or footer bytes are missing,
      the same command. */
  lemma HsicCutParse(c: Command, total: nat, q: seq<byte>)
    requires |c.data| <= total && |c.data| < 0x1_0000_0000 && q <= HsicPacket(c, total)
    ensures HsicParse(q) in {None, Some(c)}
    ensures q == HsicPacket(c, total) ==> HsicParse(q) == Some(c)
  {
    var h := HsicHeader(c);
    HsicHeaderFields(c);
    HsicParseInverts(c, total);
    if |q| >= HSIC_HEADER_SIZE {
      assert q[..2] == h[..2] && q[2..4] == h[2..4] && q[4..8] == h[4..8];
      if |q| >= HSIC_HEADER_SIZE + |c.data| {
        assert q[8..8 + |c.data|] == c.data;
      }
    }
  }

  lemma MipiCutParse(c: Command, shortFooter: bool, q: seq<byte>)
    requires |c.data| < 0x1_0000 && q <= MipiPacket(c, shortFooter)
    ensures MipiParse(q) in {None, Some(c)}
    ensures q == MipiPacket(c, shortFooter) ==> MipiParse(q) == Some(c)
  {
    var p, end := MipiPacket(c, shortFooter), MIPI_HEADER_SIZE + |c.data|;
    MipiPacketFields(c, shortFooter);
    MipiParseInverts(c, shortFooter);
    if |q| >= MIPI_HEADER_SIZE {
      assert q[..4] == p[..4] && q[4..6] == p[4..6] && q[6..8] == p[6..8] && q[8..10] == p[8..10];
      if |q| >= end + 4 {
        assert q[10..end] == p[10..end];
        assert q[end..end + 2] == p[end..end + 2] && q[end + 2..end + 4] == p[end + 2..end + 4];
      }
    }
  }

  lemma {:induction false} ExecuteLast(m: Modem, cs: seq<Command>, c: Command)
    ensures ExecuteAll(m, cs + [c]) == Execute(ExecuteAll(m, cs), c)
    decreases |cs|
  {
    if cs != [] {
      ExecuteLast(Execute(m, cs[0]), cs[1..], c);
      assert (cs + [c])[1..] == cs[1..] + [c];
    }
  }

  /** Feeding the modem the beginning of a command stream, with the last command perhaps
      unreadable, executes the beginning of the commands. */
  lemma FeedBeginning(m: Modem, cs: seq<Command>, os: seq<Option<Command>>) returns (k: nat)
    requires |os| <= |cs|
    requires forall i | 0 <= i < |os| - 1 :: os[i] == Some(cs[i])
    requires os != [] ==> os[|os| - 1] in {None, Some(cs[|os| - 1])}
    ensures k <= |cs| && Feed(m, os) == ExecuteAll(m, cs[..k])
  {
    if os == [] {
      k := 0;
    } else {
      var n := |os| - 1;
      assert os[..n] == Wrapped(cs[..n]) && os == os[..n] + [os[n]];
      FeedExecutes(m, cs[..n]);
      FeedConcat(m, os[..n], [os[n]]);
      FeedOne(ExecuteAll(m, cs[..n]), os[n]);
      if os[n].Some? {
        k := n + 1;
        assert cs[..k] == cs[..n] + [cs[n]];
        ExecuteLast(m, cs[..n], cs[n]);
      } else {
        k := n;
      }
    }
  }

  lemma FeedOne(m: Modem, o: Option<Command>)
    ensures Feed(m, [o]) == if o.Some? then Execute(m, o.value) else m
  {
  }

  /** The first `k` blocks of an image are the blocks of a beginning of it. */
  lemma {:induction false} BlocksPrefix(d: seq<byte>, chunk: nat, k: nat) returns (n: nat)
    requires chunk > 0 && k <= |Blocks(d, chunk)|
    ensures n <= |d| && Blocks(d, chunk)[..k] == Blocks(d[..n], chunk)
    decreases |d|
  {
    if k == 0 {
      n := 0;
    } else {
      var s := Min(chunk, |d|);
      var j := BlocksPrefix(d[s..], chunk, k - 1);
      n := s + j;
      assert d[..n][..s] == d[..s] && d[..n][s..] == d[s..][..j];
    }
  }

  /** The first `k` commands of an image leave a beginning of it at its address. */
  lemma FlashBeginning(m: Modem, address: int, d: seq<byte>, chunk: nat, k: nat)
    returns (n: nat)
    requires chunk > 0 && k <= |FlashCommands(address, d, chunk)|
    ensures n <= |d|
    ensures ExecuteAll(m, FlashCommands(address, d, chunk)[..k]).mem
            == Blit(m.mem, AddressWord(address), d[..n])
  {
    if k == 0 {
      n := 0;
      assert FlashCommands(address, d, chunk)[..k] == [];
    } else {
      n := BlocksPrefix(d, chunk, k - 1);
      assert FlashCommands(address, d, chunk)[..k] == FlashCommands(address, d[..n], chunk);
      FlashReconstructs(m, address, d[..n], chunk);
    }
  }

  lemma HsicSentParse(cs: seq<Command>, sent: seq<seq<byte>>, i: nat)
    requires forall c | c in cs :: |c.data| <= HSIC_COMMAND_DATA_SIZE
    requires CutOff(sent, HsicPackets(cs)) && i < |sent|
    ensures |sent| <= |cs| && HsicParse(sent[i]) in {None, Some(cs[i])}
    ensures i < |sent| - 1 ==> HsicParse(sent[i]) == Some(cs[i])
  {
    CutOffAt(sent, HsicPackets(cs), i);
    assert cs[i] in cs;
    HsicCutParse(cs[i], HSIC_COMMAND_DATA_SIZE, sent[i]);
  }

  /** An interrupted HSIC load never damages anything: whatever part of the stream got out,
      memory holds a beginning of the image at its address and is unchanged elsewhere. */
  lemma HsicInterrupted(m: Modem, address: int, d: seq<byte>, sent: seq<seq<byte>>)
    returns (n: nat)
    requires CutOff(sent, HsicStream(address, d))
    ensures n <= |d|
    ensures HsicReplay(m, sent).mem == Blit(m.mem, AddressWord(address), d[..n])
  {
    var cs := FlashCommands(address, d, HSIC_CHUNK);
    FlashCommandsAreSmall(address, d, HSIC_CHUNK);
    forall i | 0 <= i < |sent|
      ensures |sent| <= |cs| && HsicParsed(sent)[i] in {None, Some(cs[i])}
      ensures i < |sent| - 1 ==> HsicParsed(sent)[i] == Some(cs[i])
    {
      HsicSentParse(cs, sent, i);
    }
    var k := FeedBeginning(m, cs, HsicParsed(sent));
    n := FlashBeginning(m, address, d, HSIC_CHUNK, k);
  }

  lemma MipiSentParse(cs: seq<Command>, sent: seq<seq<byte>>, i: nat)
    requires forall c | c in cs :: |c.data| < 0x1_0000
    requires CutOff(sent, MipiPackets(cs)) && i < |sent|
    ensures |sent| <= |cs| && MipiParse(sent[i]) in {None, Some(cs[i])}
    ensures i < |sent| - 1 ==> MipiParse(sent[i]) == Some(cs[i])
  {
    CutOffAt(sent, MipiPackets(cs), i);
    assert cs[i] in cs;
    MipiCutParse(cs[i], cs[i].code == FLASH_WRITE_BLOCK, sent[i]);
  }

  /** The same for MIPI. */
  lemma MipiInterrupted(m: Modem, address: int, d: seq<byte>, sent: seq<seq<byte>>)
    returns (n: nat)
    requires CutOff(sent, MipiStream(address, d))
    ensures n <= |d|
    ensures MipiReplay(m, sent).mem == Blit(m.mem, AddressWord(address), d[..n])
  {
    var cs := FlashCommands(address, d, MIPI_CHUNK);
    FlashCommandsAreSmall(address, d, MIPI_CHUNK);
    forall i | 0 <= i < |sent|
      ensures |sent| <= |cs| && MipiParsed(sent)[i] in {None, Some(cs[i])}
      ensures i < |sent| - 1 ==> MipiParsed(sent)[i] == Some(cs[i])
    {
      MipiSentParse(cs, sent, i);
    }
    var k := FeedBeginning(m, cs, MipiParsed(sent));
    n := FlashBeginning(m, address, d, MIPI_CHUNK, k);
  }

  // ---------------------------------------------------------------- several images

  lemma HsicReplayConcat(m: Modem, a: seq<seq<byte>>, b: seq<seq<byte>>)
    ensures HsicReplay(m, a + b) == HsicReplay(HsicReplay(m, a), b)
  {
    assert HsicParsed(a + b) == HsicParsed(a) + HsicParsed(b);
    FeedConcat(m, HsicParsed(a), HsicParsed(b));
  }

  lemma MipiReplayConcat(m: Modem, a: seq<seq<byte>>, b: seq<seq<byte>>)
    ensures MipiReplay(m, a + b) == MipiReplay(MipiReplay(m, a), b)
  {
    assert MipiParsed(a + b) == MipiParsed(a) + MipiParsed(b);
    FeedConcat(m, MipiParsed(a), MipiParsed(b));
  }

  /** Firmware, nv_data and MPS data sent over MIPI one after the other are all in memory
      at the end, within the windows between the three addresses; nothing else changed. */
  lemma ThreeImages(m: Modem, firmware: seq<byte>, nvData: seq<byte>, mps: seq<byte>)
    requires |firmware| <= NV_DATA_ADDRESS - FIRMWARE_ADDRESS
    requires |nvData| <= MPS_DATA_ADDRESS - NV_DATA_ADDRESS
    ensures var r := MipiReplay(m, MipiStream(FIRMWARE_ADDRESS, firmware)
                                   + MipiStream(NV_DATA_ADDRESS, nvData)
                                   + MipiStream(MPS_DATA_ADDRESS, mps));
            && Holds(r.mem, FIRMWARE_ADDRESS, firmware)
            && Holds(r.mem, NV_DATA_ADDRESS, nvData)
            && Holds(r.mem, MPS_DATA_ADDRESS, mps)
            && Untouched(m.mem, r.mem, FIRMWARE_ADDRESS, |firmware|,
                         NV_DATA_ADDRESS, |nvData|, MPS_DATA_ADDRESS, |mps|)
  {
    var a, b, c := MipiStream(FIRMWARE_ADDRESS, firmware), MipiStream(NV_DATA_ADDRESS, nvData),
                   MipiStream(MPS_DATA_ADDRESS, mps);
    MipiReplayConcat(m, a + b, c);
    MipiReplayConcat(m, a, b);
    FlashStreamsAgree(m, FIRMWARE_ADDRESS, firmware);
    FlashStreamsAgree(MipiReplay(m, a), NV_DATA_ADDRESS, nvData);
    FlashStreamsAgree(MipiReplay(m, a + b), MPS_DATA_ADDRESS, mps);
    BlitThree(m.mem, FIRMWARE_ADDRESS, firmware, NV_DATA_ADDRESS, nvData, MPS_DATA_ADDRESS, mps);
    BlitThreeUntouched(m.mem, FIRMWARE_ADDRESS, firmware, NV_DATA_ADDRESS, nvData,
                       MPS_DATA_ADDRESS, mps);
  }

  lemma BlitHolds(mem: map<nat, byte>, at: nat, d: seq<byte>)
    ensures Holds(Blit(mem, at, d), at, d)
  {
    forall x: nat | at <= x < at + |d|
      ensures x in Blit(mem, at, d) && Blit(mem, at, d)[x] == d[x - at]
    {
      BlitAt(mem, at, d, x);
    }
  }

  lemma BlitKeeps(mem: map<nat, byte>, at: nat, d: seq<byte>, other: nat, e: seq<byte>)
    requires Holds(mem, other, e) && (other + |e| <= at || at + |d| <= other)
    ensures Holds(Blit(mem, at, d), other, e)
  {
    forall x: nat | other <= x < other + |e|
      ensures x in Blit(mem, at, d) && Blit(mem, at, d)[x] == e[x - other]
    {
      assert x in mem;
      BlitAt(mem, at, d, x);
    }
  }

  predicate Inside(x: nat, at: nat, n: nat) {
    at <= x < at + n
  }

  /** Outside the three windows memory is as it was: nothing lost, changed or added. */
  ghost predicate Untouched(mem: map<nat, byte>, r: map<nat, byte>,
                            i: nat, a: nat, j: nat, b: nat, k: nat, c: nat)
  {
    forall x: nat {:trigger x in r} {:trigger x in mem} |
      !Inside(x, i, a) && !Inside(x, j, b) && !Inside(x, k, c) ::
      (x in r <==> x in mem) && (x in mem ==> r[x] == mem[x])
  }

  lemma BlitThree(mem: map<nat, byte>, i: nat, a: seq<byte>, j: nat, b: seq<byte>,
                  k: nat, c: seq<byte>)
    requires i + |a| <= j && j + |b| <= k
    ensures var r := Blit(Blit(Blit(mem, i, a), j, b), k, c);
            Holds(r, i, a) && Holds(r, j, b) && Holds(r, k, c)
  {
    var m1, m2 := Blit(mem, i, a), Blit(Blit(mem, i, a), j, b);
    BlitHolds(mem, i, a);
    BlitKeeps(m1, j, b, i, a);
    BlitHolds(m1, j, b);
    BlitKeeps(m2, k, c, i, a);
    BlitKeeps(m2, k, c, j, b);
    BlitHolds(m2, k, c);
  }

  lemma BlitThreeUntouched(mem: map<nat, byte>, i: nat, a: seq<byte>, j: nat, b: seq<byte>,
                           k: nat, c: seq<byte>)
    ensures Untouched(mem, Blit(Blit(Blit(mem, i, a), j, b), k, c), i, |a|, j, |b|, k, |c|)
  {
    var m1, m2 := Blit(mem, i, a), Blit(Blit(mem, i, a), j, b);
    forall x: nat | !Inside(x, i, |a|) && !Inside(x, j, |b|) && !Inside(x, k, |c|)
      ensures x in Blit(m2, k, c) <==> x in mem
      ensures x in mem ==> Blit(m2, k, c)[x] == mem[x]
    {
      BlitAt(mem, i, a, x);
      BlitAt(m1, j, b, x);
      BlitAt(m2, k, c, x);
    }
  }

  lemma HsicTwoImages(m: Modem, firmware: seq<byte>, nvData: seq<byte>)
    ensures HsicReplay(m, HsicStream(FIRMWARE_ADDRESS, firmware)
                          + HsicStream(NV_DATA_ADDRESS, nvData)).mem
            == Blit(Blit(m.mem, FIRMWARE_ADDRESS, firmware), NV_DATA_ADDRESS, nvData)
  {
    var a := HsicStream(FIRMWARE_ADDRESS, firmware);
    HsicReplayConcat(m, a, HsicStream(NV_DATA_ADDRESS, nvData));
    FlashStreamsAgree(m, FIRMWARE_ADDRESS, firmware);
    FlashStreamsAgree(HsicReplay(m, a), NV_DATA_ADDRESS, nvData);
  }

  ghost predicate FirmwareSurvives(m: Modem, firmware: seq<byte>, nvData: seq<byte>) {
    Holds(HsicReplay(m, HsicStream(FIRMWARE_ADDRESS, firmware)
                        + HsicStream(NV_DATA_ADDRESS, nvData)).mem,
          FIRMWARE_ADDRESS, firmware)
  }

  /** The firmware survives every later nv_data image exactly if it ends before it. */
  lemma FirmwareSurvivesIff(m: Modem, firmware: seq<byte>, n: nat)
    requires n > 0
    ensures (forall nvData: seq<byte> | |nvData| == n :: FirmwareSurvives(m, firmware, nvData))
            <==> |firmware| <= NV_DATA_ADDRESS - FIRMWARE_ADDRESS
  {
    var gap := NV_DATA_ADDRESS - FIRMWARE_ADDRESS;
    if |firmware| <= gap {
      forall nvData: seq<byte> | |nvData| == n
        ensures FirmwareSurvives(m, firmware, nvData)
      {
        HsicTwoImages(m, firmware, nvData);
        BlitThree(m.mem, FIRMWARE_ADDRESS, firmware, NV_DATA_ADDRESS, nvData,
                  NV_DATA_ADDRESS + n, []);
      }
    } else {
      var nvData := seq(n, _ => if firmware[gap] == 0 then 1 else 0);
      FirmwareLost(m, firmware, nvData);
    }
  }

  lemma BlitOverwrites(mem: map<nat, byte>, i: nat, a: seq<byte>, j: nat, b: seq<byte>)
    requires i <= j < i + |a| && b != [] && b[0] != a[j - i]
    ensures !Holds(Blit(mem, j, b), i, a)
  {
    BlitAt(mem, j, b, j);
  }

  lemma FirmwareLost(m: Modem, firmware: seq<byte>, nvData: seq<byte>)
    requires nvData != [] && |firmware| > NV_DATA_ADDRESS - FIRMWARE_ADDRESS
    requires nvData[0] != firmware[NV_DATA_ADDRESS - FIRMWARE_ADDRESS]
    ensures !FirmwareSurvives(m, firmware, nvData)
  {
    HsicTwoImages(m, firmware, nvData);
    BlitOverwrites(Blit(m.mem, FIRMWARE_ADDRESS, firmware), FIRMWARE_ADDRESS, firmware,
                   NV_DATA_ADDRESS, nvData);
  }
}
