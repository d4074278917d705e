/** Messages and their frames: the header codecs of samsung-ipc/ipc_utils.c. */
module Protocol {
  import opened Bytes

  type uint = x: nat | x < 0x1_0000_0000

  const FMT_HEADER_SIZE := 7
  const RFS_HEADER_SIZE := 6
  const IPC_GROUP_RFS: byte := 0x42
  const DATA_SIZE_LIMIT := 0x80000

  /** `struct ipc_message`; `data` holds the `size` bytes of the payload. */
  datatype Message = Message(mseq: byte, aseq: byte, command: ushort, typ: byte, data: seq<byte>)

  const EMPTY_MESSAGE := Message(0, 0, 0, 0, [])

  datatype FmtHeader =
    FmtHeader(length: ushort, mseq: byte, aseq: byte, group: byte, index: byte, typ: byte)

  datatype RfsHeader = RfsHeader(length: uint, index: byte, id: byte)

  function Group(command: ushort): byte {
    (command / 256) as byte
  }

  function Index(command: ushort): byte {
    (command % 256) as byte
  }

  function Command(group: byte, index: byte): ushort {
    group as nat * 256 + index as nat
  }

  // ---------------------------------------------------------------- frames

  function FmtHeaderBytes(h: FmtHeader): (b: seq<byte>)
    ensures |b| == FMT_HEADER_SIZE
  {
    U16(h.length) + [h.mseq, h.aseq, h.group, h.index, h.typ]
  }

  function ParseFmtHeader(b: seq<byte>): FmtHeader
    requires |b| >= FMT_HEADER_SIZE
  {
    FmtHeader(FromU16(b[..2]), b[2], b[3], b[4], b[5], b[6])
  }

  function RfsHeaderBytes(h: RfsHeader): (b: seq<byte>)
    ensures |b| == RFS_HEADER_SIZE
  {
    FromU32Inverts(h.length);
    U32(h.length) + [h.index, h.id]
  }

  function ParseRfsHeader(b: seq<byte>): RfsHeader
    requires |b| >= RFS_HEADER_SIZE
  {
    RfsHeader(FromU32(b[..4]), b[4], b[5])
  }

  /** The header that announces `m`; the length field keeps 16 bits of the sum. */
  function FmtHeaderOf(m: Message): FmtHeader {
    FmtHeader((|m.data| + FMT_HEADER_SIZE) % 0x1_0000, m.mseq, m.aseq,
              Group(m.command), Index(m.command), m.typ)
  }

  function RfsHeaderOf(m: Message): RfsHeader {
    RfsHeader((|m.data| + RFS_HEADER_SIZE) % 0x1_0000_0000, Index(m.command), m.mseq)
  }

  /** What a receiver makes of a header and the payload behind it. */
  function FmtMessageOf(h: FmtHeader, data: seq<byte>): Message {
    Message(h.mseq, h.aseq, Command(h.group, h.index), h.typ, data)
  }

  function RfsMessageOf(h: RfsHeader, data: seq<byte>): Message {
    Message(0, h.id, Command(IPC_GROUP_RFS, h.index), 0, data)
  }

  function FmtFrame(m: Message): seq<byte> {
    FmtHeaderBytes(FmtHeaderOf(m)) + m.data
  }

  function RfsFrame(m: Message): seq<byte> {
    RfsHeaderBytes(RfsHeaderOf(m)) + m.data
  }

  function FmtDecode(f: seq<byte>): Message
    requires |f| >= FMT_HEADER_SIZE
  {
    FmtMessageOf(ParseFmtHeader(f), f[FMT_HEADER_SIZE..])
  }

  function RfsDecode(f: seq<byte>): Message
    requires |f| >= RFS_HEADER_SIZE
  {
    RfsMessageOf(ParseRfsHeader(f), f[RFS_HEADER_SIZE..])
  }

  /** A frame whose length field tells its length. */
  predicate FmtWellFormed(f: seq<byte>) {
    |f| >= FMT_HEADER_SIZE && ParseFmtHeader(f).length == |f|
  }

  predicate RfsWellFormed(f: seq<byte>) {
    |f| >= RFS_HEADER_SIZE && ParseRfsHeader(f).length == |f|
  }

  // ---------------------------------------------------------------- the setup functions

  /** `ipc_fmt_header_setup`. */
  method FmtHeaderSetup(message: Message) returns (header: FmtHeader)
    ensures header == FmtHeaderOf(message)
  {
    header := FmtHeader(0, 0, 0, 0, 0, 0);
    header := header.(length := (|message.data| + FMT_HEADER_SIZE) % 0x1_0000);
    header := header.(mseq := message.mseq, aseq := message.aseq);
    header := header.(group := Group(message.command), index := Index(message.command));
    header := header.(typ := message.typ);
  }

  /** `ipc_fmt_message_setup`. */
  method FmtMessageSetup(header: FmtHeader) returns (message: Message)
    ensures message == FmtMessageOf(header, [])
  {
    message := EMPTY_MESSAGE;
    message := message.(mseq := header.mseq, aseq := header.aseq);
    message := message.(command := Command(header.group, header.index));
    message := message.(typ := header.typ);
  }

  /** `ipc_rfs_header_setup`. */
  method RfsHeaderSetup(message: Message) returns (header: RfsHeader)
    ensures header == RfsHeaderOf(message)
  {
    header := RfsHeader(0, 0, 0);
    header := header.(length := (|message.data| + RFS_HEADER_SIZE) % 0x1_0000_0000);
    header := header.(id := message.mseq);
    header := header.(index := Index(message.command));
  }

  /** `ipc_rfs_message_setup`. */
  method RfsMessageSetup(header: RfsHeader) returns (message: Message)
    ensures message == RfsMessageOf(header, [])
  {
    message := EMPTY_MESSAGE;
    message := message.(aseq := header.id);
    message := message.(command := Command(IPC_GROUP_RFS, header.index));
  }

  // ---------------------------------------------------------------- one frame

  lemma ParseFmtInverts(h: FmtHeader, rest: seq<byte>)
    ensures ParseFmtHeader(FmtHeaderBytes(h) + rest) == h
  {
    FromU16Inverts(h.length);
    assert (FmtHeaderBytes(h) + rest)[..2] == U16(h.length);
  }

  lemma ParseRfsInverts(h: RfsHeader, rest: seq<byte>)
    ensures ParseRfsHeader(RfsHeaderBytes(h) + rest) == h
  {
    FromU32Inverts(h.length);
    assert (RfsHeaderBytes(h) + rest)[..4] == U32(h.length);
  }

  lemma CommandInverts(command: ushort)
    ensures Command(Group(command), Index(command)) == command
  {
  }

  /** An FMT frame decodes to the message it was made of, and its length field is right
      exactly while header and payload fit 16 bits. */
  lemma FmtRoundTrip(m: Message)
    ensures FmtDecode(FmtFrame(m)) == m
    ensures FmtWellFormed(FmtFrame(m)) <==> |m.data| + FMT_HEADER_SIZE <= 0xFFFF
  {
    ParseFmtInverts(FmtHeaderOf(m), m.data);
    CommandInverts(m.command);
  }

  /** An RFS frame keeps the payload, the low command byte and the sequence number, which
      arrives in the other field: it is a projection of the message. */
  lemma RfsRoundTrip(m: Message)
    ensures RfsDecode(RfsFrame(m))
            == Message(0, m.mseq, 0x4200 + m.command % 256, 0, m.data)
    ensures RfsDecode(RfsFrame(m)).command == m.command <==> Group(m.command) == IPC_GROUP_RFS
    ensures RfsWellFormed(RfsFrame(m)) <==> |m.data| + RFS_HEADER_SIZE <= 0xFFFF_FFFF
  {
    ParseRfsInverts(RfsHeaderOf(m), m.data);
    CommandInverts(m.command);
  }

  /** What stands where in an FMT frame. */
  lemma FmtFrameLayout(m: Message)
    ensures var f := FmtFrame(m);
            && |f| == 7 + |m.data| && f[7..] == m.data
            && f[0] as nat + 256 * f[1] as nat == |f| % 0x1_0000
            && f[2] == m.mseq && f[3] == m.aseq
            && f[4] as nat == m.command / 256 && f[5] as nat == m.command % 256
            && f[6] == m.typ
  {
    var h := FmtHeaderOf(m);
    FromU16Inverts(h.length);
    FrameParts(U16(h.length), [h.mseq, h.aseq, h.group, h.index, h.typ], m.data);
  }

  lemma FrameParts(a: seq<byte>, b: seq<byte>, d: seq<byte>)
    ensures var f := a + b + d;
            && f[..|a|] == a && f[|a| + |b|..] == d
            && (forall k | 0 <= k < |a| :: f[k] == a[k])
            && forall k {:trigger b[k]} | 0 <= k < |b| :: f[|a| + k] == b[k]
  {
  }

  /** And in an RFS frame. */
  lemma RfsFrameLayout(m: Message)
    ensures var f := RfsFrame(m);
            && |f| == 6 + |m.data| && f[6..] == m.data
            && Word(f) == |f| % 0x1_0000_0000
            && f[4] as nat == m.command % 256 && f[5] == m.mseq
  {
    var n := (|m.data| + 6) % 0x1_0000_0000;
    FromU32Inverts(n);
    WordIsU32(n, RfsFrame(m));
    assert RfsFrame(m)[6..] == m.data;
  }

  /** What a receiver reads from the bytes of a header. */
  lemma ParseFmtLayout(f: seq<byte>, data: seq<byte>)
    requires |f| >= 7
    ensures ParseFmtHeader(f).length == f[0] as nat + 256 * f[1] as nat
    ensures var m := FmtMessageOf(ParseFmtHeader(f), data);
            && m.mseq == f[2] && m.aseq == f[3]
            && m.command == 256 * f[4] as nat + f[5] as nat && m.typ == f[6] && m.data == data
  {
  }

  lemma ParseRfsLayout(f: seq<byte>, data: seq<byte>)
    requires |f| >= 6
    ensures ParseRfsHeader(f).length == Word(f)
    ensures var m := RfsMessageOf(ParseRfsHeader(f), data);
            && m.mseq == 0 && m.aseq == f[5]
            && m.command == 0x4200 + f[4] as nat && m.typ == 0 && m.data == data
  {
    WordIsFromU32(f);
  }

  // ---------------------------------------------------------------- streams of frames

  function Flatten(fs: seq<seq<byte>>): seq<byte> {
    if fs == [] then [] else fs[0] + Flatten(fs[1..])
  }

  /** Cuts a byte stream into frames by their length fields alone. */
  function FmtDeframe(b: seq<byte>): Option<seq<seq<byte>>>
    decreases |b|
  {
    if b == [] then Some([])
    else if |b| < FMT_HEADER_SIZE then None
    else
      var n := ParseFmtHeader(b).length;
      if n < FMT_HEADER_SIZE || |b| < n then None
      else
        var rest := FmtDeframe(b[n..]);
        if rest.None? then None else Some([b[..n]] + rest.value)
  }

  function RfsDeframe(b: seq<byte>): Option<seq<seq<byte>>>
    decreases |b|
  {
    if b == [] then Some([])
    else if |b| < RFS_HEADER_SIZE then None
    else
      var n := ParseRfsHeader(b).length;
      if n < RFS_HEADER_SIZE || |b| < n then None
      else
        var rest := RfsDeframe(b[n..]);
        if rest.None? then None else Some([b[..n]] + rest.value)
  }

  function FmtFrames(ms: seq<Message>): (fs: seq<seq<byte>>)
    ensures |fs| == |ms|
    ensures forall i | 0 <= i < |ms| :: fs[i] == FmtFrame(ms[i])
  {
    seq(|ms|, i requires 0 <= i < |ms| => FmtFrame(ms[i]))
  }

  function RfsFrames(ms: seq<Message>): (fs: seq<seq<byte>>)
    ensures |fs| == |ms|
    ensures forall i | 0 <= i < |ms| :: fs[i] == RfsFrame(ms[i])
  {
    seq(|ms|, i requires 0 <= i < |ms| => RfsFrame(ms[i]))
  }

  /** The stream of well-formed frames falls apart into exactly these frames. */
  lemma {:induction false} FmtDeframeFlatten(fs: seq<seq<byte>>)
    requires forall i | 0 <= i < |fs| :: FmtWellFormed(fs[i])
    ensures FmtDeframe(Flatten(fs)) == Some(fs)
  {
    if fs != [] {
      FmtDeframeFlatten(fs[1..]);
      var b, n := Flatten(fs), |fs[0]|;
      assert b[..2] == fs[0][..2];
      assert b[..n] == fs[0] && b[n..] == Flatten(fs[1..]);
      assert [fs[0]] + fs[1..] == fs;
    }
  }

  lemma {:induction false} RfsDeframeFlatten(fs: seq<seq<byte>>)
    requires forall i | 0 <= i < |fs| :: RfsWellFormed(fs[i])
    ensures RfsDeframe(Flatten(fs)) == Some(fs)
  {
    if fs != [] {
      RfsDeframeFlatten(fs[1..]);
      var b, n := Flatten(fs), |fs[0]|;
      assert b[..4] == fs[0][..4];
      assert b[..n] == fs[0] && b[n..] == Flatten(fs[1..]);
      assert [fs[0]] + fs[1..] == fs;
    }
  }

  /** FMT over a byte stream: the messages sent one after the other come back, all of
      them, in order and unchanged. */
  lemma FmtStreamRoundTrip(ms: seq<Message>)
    requires forall i | 0 <= i < |ms| :: |ms[i].data| + FMT_HEADER_SIZE <= 0xFFFF
    ensures var fs := FmtDeframe(Flatten(FmtFrames(ms)));
            && fs.Some? && |fs.value| == |ms|
            && forall i | 0 <= i < |ms| ::
                 FmtWellFormed(fs.value[i]) && FmtDecode(fs.value[i]) == ms[i]
  {
    var fs := FmtFrames(ms);
    forall i | 0 <= i < |ms|
      ensures FmtWellFormed(fs[i]) && FmtDecode(fs[i]) == ms[i]
    {
      FmtRoundTrip(ms[i]);
    }
    FmtDeframeFlatten(fs);
  }

  /** RFS over a byte stream: the projections come back, and each is accepted by a
      receiver exactly if its frame is within the receiver's limit. */
  lemma RfsStreamRoundTrip(ms: seq<Message>)
    requires forall i | 0 <= i < |ms| :: |ms[i].data| + RFS_HEADER_SIZE <= 0xFFFF_FFFF
    ensures var fs := RfsDeframe(Flatten(RfsFrames(ms)));
            && fs.Some? && |fs.value| == |ms|
            && forall i | 0 <= i < |ms| ::
                 && RfsWellFormed(fs.value[i])
                 && RfsDecode(fs.value[i])
                    == Message(0, ms[i].mseq, 0x4200 + ms[i].command % 256, 0, ms[i].data)
                 && (ParseRfsHeader(fs.value[i]).length <= DATA_SIZE_LIMIT
                     <==> |ms[i].data| + RFS_HEADER_SIZE <= DATA_SIZE_LIMIT)
  {
    var fs := RfsFrames(ms);
    forall i | 0 <= i < |ms|
      ensures RfsWellFormed(fs[i])
      ensures RfsDecode(fs[i])
              == Message(0, ms[i].mseq, 0x4200 + ms[i].command % 256, 0, ms[i].data)
    {
      RfsRoundTrip(ms[i]);
    }
    RfsDeframeFlatten(fs);
  }

  // ---------------------------------------------------------------- sessions

  /** The wire after sending the messages one by one, as the senders' contracts give it. */
  function FmtWireAfter(wire: seq<byte>, ms: seq<Message>): seq<byte>
    decreases |ms|
  {
    if ms == [] then wire else FmtWireAfter(wire + FmtFrame(ms[0]), ms[1..])
  }

  /** The messages that `n` receive calls return, as the receivers' contracts give them. */
  function FmtReceived(queue: seq<seq<byte>>, n: nat): seq<Message>
    requires n <= |queue| && forall i | 0 <= i < |queue| :: FmtWellFormed(queue[i])
    decreases n
  {
    if n == 0 then []
    else
      assert FmtWellFormed(queue[0]);
      [FmtDecode(queue[0])] + FmtReceived(queue[1..], n - 1)
  }

  lemma {:induction false} FmtWireIsFlat(wire: seq<byte>, ms: seq<Message>)
    ensures FmtWireAfter(wire, ms) == wire + Flatten(FmtFrames(ms))
    decreases |ms|
  {
    if ms != [] {
      var f := FmtFrame(ms[0]);
      FmtWireIsFlat(wire + f, ms[1..]);
      assert FmtFrames(ms)[0] == f && FmtFrames(ms)[1..] == FmtFrames(ms[1..]);
      assert wire + f + Flatten(FmtFrames(ms[1..])) == wire + (f + Flatten(FmtFrames(ms[1..])));
    }
  }

  lemma {:induction false} FmtReceivedFrames(queue: seq<seq<byte>>, ms: seq<Message>)
    requires |queue| == |ms|
    requires forall i | 0 <= i < |queue| :: FmtWellFormed(queue[i]) && FmtDecode(queue[i]) == ms[i]
    ensures FmtReceived(queue, |ms|) == ms
    decreases |ms|
  {
    if ms != [] {
      FmtReceivedFrames(queue[1..], ms[1..]);
      assert [ms[0]] + ms[1..] == ms;
    }
  }

  /** A whole session: any number of messages sent, the byte stream cut at its length
      fields, as many receive calls: the messages come back in order and unchanged. */
  lemma FmtSession(ms: seq<Message>)
    requires forall i | 0 <= i < |ms| :: |ms[i].data| + FMT_HEADER_SIZE <= 0xFFFF
    ensures var queue := FmtDeframe(FmtWireAfter([], ms));
            && queue.Some? && |queue.value| == |ms|
            && (forall i | 0 <= i < |ms| :: FmtWellFormed(queue.value[i]))
            && FmtReceived(queue.value, |ms|) == ms
  {
    FmtStreamRoundTrip(ms);
    FmtWireIsFlat([], ms);
    assert [] + Flatten(FmtFrames(ms)) == Flatten(FmtFrames(ms));
    FmtReceivedFrames(FmtDeframe(Flatten(FmtFrames(ms))).value, ms);
  }

  function RfsWireAfter(wire: seq<byte>, ms: seq<Message>): seq<byte>
    decreases |ms|
  {
    if ms == [] then wire else RfsWireAfter(wire + RfsFrame(ms[0]), ms[1..])
  }

  lemma {:induction false} RfsWireIsFlat(wire: seq<byte>, ms: seq<Message>)
    ensures RfsWireAfter(wire, ms) == wire + Flatten(RfsFrames(ms))
    decreases |ms|
  {
    if ms != [] {
      var f := RfsFrame(ms[0]);
      RfsWireIsFlat(wire + f, ms[1..]);
      assert RfsFrames(ms)[0] == f && RfsFrames(ms)[1..] == RfsFrames(ms[1..]);
      assert wire + f + Flatten(RfsFrames(ms[1..])) == wire + (f + Flatten(RfsFrames(ms[1..])));
    }
  }

  /** What of a message survives RFS. */
  function RfsProjection(m: Message): Message {
    Message(0, m.mseq, 0x4200 + m.command % 256, 0, m.data)
  }

  /** The queue of frames that a session of RFS sends delivers. */
  lemma RfsSession(ms: seq<Message>)
    requires forall i | 0 <= i < |ms| :: |ms[i].data| + RFS_HEADER_SIZE <= 0xFFFF_FFFF
    ensures var queue := RfsDeframe(RfsWireAfter([], ms));
            && queue.Some? && |queue.value| == |ms|
            && forall i | 0 <= i < |ms| ::
                 && RfsWellFormed(queue.value[i])
                 && RfsDecode(queue.value[i]) == RfsProjection(ms[i])
                 && |queue.value[i]| == |ms[i].data| + RFS_HEADER_SIZE
  {
    RfsStreamRoundTrip(ms);
    RfsWireIsFlat([], ms);
    assert [] + Flatten(RfsFrames(ms)) == Flatten(RfsFrames(ms));
  }
}
