/** Sending and receiving frames over a transport that may transfer less than was asked
    for: the handlers of the XMM626 kernel driver and of Aries. */
module Framing {
  import opened Bytes
  import opened Protocol

  const XMM626_DATA_SIZE := 0x1000
  const ARIES_BUFFER_LENGTH := 4032

  // ---------------------------------------------------------------- a queue of frames

  /** A position between two frames or inside one: `at` bytes of the first are read. */
  predicate Settled(queue: seq<seq<byte>>, at: nat) {
    && (forall i | 0 <= i < |queue| :: queue[i] != [])
    && if queue == [] then at == 0 else at < |queue[0]|
  }

  /** The bytes still to be read. */
  function Ahead(queue: seq<seq<byte>>, at: nat): seq<byte>
    requires Settled(queue, at)
  {
    if queue == [] then [] else queue[0][at..] + Flatten(queue[1..])
  }

  /** The position `n` bytes further on. */
  function Advance(queue: seq<seq<byte>>, at: nat, n: nat): (p: (seq<seq<byte>>, nat))
    requires Settled(queue, at)
    ensures Settled(p.0, p.1)
    decreases |queue|
  {
    if queue == [] then (queue, at)
    else
      var left := |queue[0]| - at;
      if n < left then (queue, at + n) else Advance(queue[1..], 0, n - left)
  }

  lemma {:induction false} AdvanceTwice(queue: seq<seq<byte>>, at: nat, m: nat, n: nat)
    requires Settled(queue, at)
    ensures var p := Advance(queue, at, m); Advance(p.0, p.1, n) == Advance(queue, at, m + n)
    decreases |queue|
  {
    if queue != [] && m >= |queue[0]| - at {
      AdvanceTwice(queue[1..], 0, m - (|queue[0]| - at), n);
    }
  }

  lemma {:induction false} AheadAfter(queue: seq<seq<byte>>, at: nat, n: nat)
    requires Settled(queue, at) && n <= |Ahead(queue, at)|
    ensures var p := Advance(queue, at, n); Ahead(p.0, p.1) == Ahead(queue, at)[n..]
    decreases |queue|
  {
    if queue != [] {
      var left, tail := |queue[0]| - at, Flatten(queue[1..]);
      if n >= left {
        assert Ahead(queue[1..], 0) == tail;
        AheadAfter(queue[1..], 0, n - left);
        DropBoth(queue[0][at..], tail, n);
      } else {
        DropFirst(queue[0], at, n, tail);
      }
    }
  }

  lemma DropBoth(a: seq<byte>, b: seq<byte>, n: nat)
    requires |a| <= n <= |a| + |b|
    ensures (a + b)[n..] == b[n - |a|..]
  {
  }

  lemma DropFirst(f: seq<byte>, at: nat, n: nat, b: seq<byte>)
    requires at + n <= |f|
    ensures (f[at..] + b)[n..] == f[at + n..] + b
  {
  }

  /** Reading a whole frame from its start gives its bytes and ends at the next. */
  lemma AdvanceFrame(queue: seq<seq<byte>>)
    requires queue != [] && Settled(queue, 0)
    ensures Advance(queue, 0, |queue[0]|) == (queue[1..], 0)
    ensures Ahead(queue, 0) == queue[0] + Flatten(queue[1..])
  {
    assert queue[0][0..] == queue[0];
  }

  // ---------------------------------------------------------------- the link

  /** The transport handlers `read` and `write`.  What is written is a byte stream; what
      arrives is a queue of frames, and no read crosses the end of a frame.  With `faults`
      a transfer may fail.  Even without, it may return 0, but only finitely often. */
  class Link {
    const headerSize: nat     // the first read of a frame, if not empty, gives this much of it
    const whole: bool         // a write that transfers anything transfers everything
    var faults: bool
    var stalls: nat           // how many transfers may still return 0
    var wire: seq<byte>
    var incoming: seq<seq<byte>>
    var at: nat               // how much of the first frame has been read

    constructor (headerSize: nat, whole: bool, faults: bool, stalls: nat,
                 incoming: seq<seq<byte>>)
      requires Settled(incoming, 0)
      ensures Valid() && at == 0 && wire == [] && this.incoming == incoming
      ensures this.headerSize == headerSize && this.whole == whole
      ensures this.faults == faults && this.stalls == stalls
    {
      this.whole := whole;
      this.headerSize, this.faults, this.stalls := headerSize, faults, stalls;
      this.incoming, this.wire, this.at := incoming, [], 0;
    }

    ghost predicate Valid()
      reads this
    {
      Settled(incoming, at)
    }

    method Write(data: seq<byte>) returns (rc: int)
      requires data != []
      modifies `wire, `stalls
      ensures -1 <= rc <= |data|
      ensures wire == old(wire) + if rc > 0 then data[..rc] else []
      ensures if rc == 0 then stalls < old(stalls) else stalls == old(stalls)
      ensures !faults ==> rc >= 0
      ensures whole && rc > 0 ==> rc == |data|
    {
      var broken: bool, empty: bool := *, *;
      if faults && broken {
        rc := -1;
      } else if stalls > 0 && empty {
        rc := 0;
        stalls := stalls - 1;
      } else {
        var least := if whole then |data| else 1;
        rc :| least <= rc <= |data| by { assert least <= least <= |data|; }
        wire := wire + data[..rc];
      }
    }

    method Read(n: nat) returns (rc: int, data: seq<byte>)
      requires Valid() && n > 0
      modifies `incoming, `at, `stalls
      ensures Valid() && -1 <= rc <= n
      ensures if rc == 0 then stalls < old(stalls) else stalls == old(stalls)
      ensures rc <= 0 ==> incoming == old(incoming) && at == old(at)
      ensures rc > 0 ==>
                && old(incoming) != [] && old(at) + rc <= |old(incoming)[0]|
                && rc <= |Ahead(old(incoming), old(at))|
                && data == Ahead(old(incoming), old(at))[..rc]
                && (incoming, at) == Advance(old(incoming), old(at), rc)
      ensures !faults && old(incoming) != [] ==> rc >= 0
      ensures !faults && rc > 0 && old(at) == 0 ==> rc >= Min(headerSize, Min(n, |old(incoming)[0]|))
    {
      data := [];
      var broken: bool, empty: bool := *, *;
      if stalls > 0 && empty {
        rc := 0;
        stalls := stalls - 1;
      } else if incoming == [] || (faults && broken) {
        rc := -1;
      } else {
        var left := |incoming[0]| - at;
        var least := Min(headerSize, Min(n, left));
        least := if faults || at > 0 || least == 0 then 1 else least;
        rc :| least <= rc <= n && rc <= left by { assert least <= least <= n && least <= left; }
        data := incoming[0][at..at + rc];
        assert data == Ahead(incoming, at)[..rc];
        if rc == left {
          incoming, at := incoming[1..], 0;
        } else {
          at := at + rc;
        }
      }
    }
  }

  // ---------------------------------------------------------------- building and writing

  /** `calloc` and the two `memcpy` calls that build a frame. */
  method Fill(length: nat, header: seq<byte>, data: seq<byte>) returns (buffer: array<byte>)
    requires |header| + |data| <= length
    ensures fresh(buffer) && buffer.Length == length
    ensures buffer[..] == header + data + Zeros(length - |header| - |data|)
  {
    buffer := new byte[length](_ => 0);
    forall k | 0 <= k < |header| {
      buffer[k] := header[k];
    }
    forall k | 0 <= k < |data| {
      buffer[|header| + k] := data[k];
    }
    assert buffer[..] == header + data + Zeros(length - |header| - |data|);
  }

  /** The write loop of `xmm626_kernel_smdk4412_fmt_send` and `_rfs_send`: an empty transfer
      is an error. */
  method Xmm626WriteLoop(link: Link, buffer: array<byte>) returns (rc: int)
    modifies link`wire, link`stalls
    ensures rc == 0 || rc == -1
    ensures rc == 0 ==> link.wire == old(link.wire) + buffer[..]
    ensures old(link.wire) <= link.wire <= old(link.wire) + buffer[..]
    ensures !link.faults && old(link.stalls) == 0 ==> rc == 0 && link.stalls == 0
  {
    var length := buffer.Length;
    var count := 0;
    while count < length
      invariant count <= length && link.stalls <= old(link.stalls)
      invariant link.wire == old(link.wire) + buffer[..count]
    {
      var wrote := link.Write(buffer[count..length]);
      if wrote <= 0 {
        return -1;
      }
      assert buffer[..count] + buffer[count..length][..wrote] == buffer[..count + wrote];
      count := count + wrote;
    }
    assert buffer[..count] == buffer[..];
    return 0;
  }

  /** The write loop of `aries_fmt_send` and `aries_rfs_send`: chunks of at most 4032
      bytes, and an empty transfer is tried again. */
  method AriesWriteLoop(link: Link, buffer: array<byte>) returns (rc: int)
    modifies link`wire, link`stalls
    ensures rc == 0 || rc == -1
    ensures rc == 0 ==> link.wire == old(link.wire) + buffer[..]
    ensures old(link.wire) <= link.wire <= old(link.wire) + buffer[..]
    ensures !link.faults ==> rc == 0
  {
    var length := buffer.Length;
    var count := 0;
    while count < length
      invariant count <= length
      invariant link.wire == old(link.wire) + buffer[..count]
      decreases length - count, link.stalls
    {
      var chunk := if length - count < ARIES_BUFFER_LENGTH then length - count
                   else ARIES_BUFFER_LENGTH;
      var wrote := link.Write(buffer[count..count + chunk]);
      if wrote < 0 {
        return -1;
      }
      assert buffer[..count] + buffer[count..count + chunk][..wrote] == buffer[..count + wrote];
      count := count + wrote;
    }
    assert buffer[..count] == buffer[..];
    return 0;
  }

  /** `xmm626_kernel_smdk4412_fmt_send`.  The buffer has the truncated length of the
      header, so the message must fit it. */
  method Xmm626FmtSend(link: Link, message: Message) returns (rc: int)
    requires |message.data| + FMT_HEADER_SIZE <= 0xFFFF
    modifies link`wire, link`stalls
    ensures rc == 0 || rc == -1
    ensures rc == 0 ==> link.wire == old(link.wire) + FmtFrame(message)
    ensures old(link.wire) <= link.wire <= old(link.wire) + FmtFrame(message)
    ensures !link.faults && old(link.stalls) == 0 ==> rc == 0 && link.stalls == 0
  {
    var header := FmtHeaderSetup(message);
    var buffer := Fill(header.length, FmtHeaderBytes(header), message.data);
    rc := Xmm626WriteLoop(link, buffer);
  }

  /** `xmm626_kernel_smdk4412_rfs_send`. */
  method Xmm626RfsSend(link: Link, message: Message) returns (rc: int)
    requires |message.data| + RFS_HEADER_SIZE <= 0xFFFF_FFFF
    modifies link`wire, link`stalls
    ensures rc == 0 || rc == -1
    ensures rc == 0 ==> link.wire == old(link.wire) + RfsFrame(message)
    ensures old(link.wire) <= link.wire <= old(link.wire) + RfsFrame(message)
    ensures !link.faults && old(link.stalls) == 0 ==> rc == 0 && link.stalls == 0
  {
    var header := RfsHeaderSetup(message);
    var buffer := Fill(header.length, RfsHeaderBytes(header), message.data);
    rc := Xmm626WriteLoop(link, buffer);
  }

  /** `aries_fmt_send`: the same bytes, and empty transfers are no failure. */
  method AriesFmtSend(link: Link, message: Message) returns (rc: int)
    requires |message.data| + FMT_HEADER_SIZE <= 0xFFFF
    modifies link`wire, link`stalls
    ensures rc == 0 || rc == -1
    ensures rc == 0 ==> link.wire == old(link.wire) + FmtFrame(message)
    ensures old(link.wire) <= link.wire <= old(link.wire) + FmtFrame(message)
    ensures !link.faults ==> rc == 0
  {
    var header := FmtHeaderSetup(message);
    var buffer := Fill(header.length, FmtHeaderBytes(header), message.data);
    rc := AriesWriteLoop(link, buffer);
  }

  /** `aries_rfs_send`. */
  method AriesRfsSend(link: Link, message: Message) returns (rc: int)
    requires |message.data| + RFS_HEADER_SIZE <= 0xFFFF_FFFF
    modifies link`wire, link`stalls
    ensures rc == 0 || rc == -1
    ensures rc == 0 ==> link.wire == old(link.wire) + RfsFrame(message)
    ensures old(link.wire) <= link.wire <= old(link.wire) + RfsFrame(message)
    ensures !link.faults ==> rc == 0
  {
    var header := RfsHeaderSetup(message);
    var buffer := Fill(header.length, RfsHeaderBytes(header), message.data);
    rc := AriesWriteLoop(link, buffer);
  }

  // ---------------------------------------------------------------- reading a payload

  /** What the payload loops have reached: `size` bytes, of which `first` were there
      before, the rest read from `q`, `a`. */
  ghost predicate PayloadRead(q: seq<seq<byte>>, a: nat, first: seq<byte>, size: nat,
                              data: seq<byte>, incoming: seq<seq<byte>>, at: nat)
  {
    && Settled(q, a) && |first| <= size && size - |first| <= |Ahead(q, a)|
    && data == first + Ahead(q, a)[..size - |first|]
    && (incoming, at) == Advance(q, a, size - |first|)
  }

  lemma PayloadStarts(q: seq<seq<byte>>, a: nat, first: seq<byte>)
    requires Settled(q, a)
    ensures PayloadRead(q, a, first, |first|, first, q, a)
  {
  }

  lemma PayloadGrows(q: seq<seq<byte>>, a: nat, first: seq<byte>, size: nat,
                     data: seq<byte>, incoming: seq<seq<byte>>, at: nat, n: nat)
    requires PayloadRead(q, a, first, size, data, incoming, at)
    requires n <= |Ahead(incoming, at)|
    ensures var p := Advance(incoming, at, n);
            PayloadRead(q, a, first, size + n, data + Ahead(incoming, at)[..n], p.0, p.1)
  {
    var m := size - |first|;
    AheadAfter(q, a, m);
    AdvanceTwice(q, a, m, n);
    TakeMore(first, Ahead(q, a), m, n);
  }

  lemma TakeMore(first: seq<byte>, all: seq<byte>, m: nat, n: nat)
    requires m + n <= |all|
    ensures first + all[..m] + all[m..][..n] == first + all[..m + n]
  {
    assert all[..m] + all[m..][..n] == all[..m + n];
  }

  /** One `read` of a payload loop, into `payload` behind the first `count` bytes. */
  method ReadInto(link: Link, payload: array<byte>, count: nat, n: nat,
                  ghost q: seq<seq<byte>>, ghost a: nat, ghost first: seq<byte>)
    returns (rc: int)
    requires link.Valid() && 0 < n && count + n <= payload.Length
    requires PayloadRead(q, a, first, count, payload[..count], link.incoming, link.at)
    modifies link`incoming, link`at, link`stalls, payload
    ensures link.Valid() && -1 <= rc <= n
    ensures if rc == 0 then link.stalls < old(link.stalls) else link.stalls == old(link.stalls)
    ensures rc >= 0 ==>
              PayloadRead(q, a, first, count + rc, payload[..count + rc], link.incoming, link.at)
    ensures !link.faults && count - |first| < |Ahead(q, a)| ==> rc >= 0
  {
    ghost var q1, a1, before := link.incoming, link.at, payload[..count];
    AheadAfter(q, a, count - |first|);
    var chunk;
    rc, chunk := link.Read(n);
    if rc > 0 {
      PayloadGrows(q, a, first, count, before, q1, a1, rc);
      Append(payload, count, chunk);
    }
  }

  /** The read loop of `xmm626_kernel_smdk4412_fmt_recv` and `_rfs_recv` behind the first
      read, which held `first`: an empty transfer is an error. */
  method Xmm626ReadRest(link: Link, size: nat, first: seq<byte>)
    returns (rc: int, data: seq<byte>)
    requires link.Valid() && |first| <= size
    modifies link`incoming, link`at, link`stalls
    ensures link.Valid() && link.stalls <= old(link.stalls)
    ensures rc == 0 || rc == -1
    ensures rc == 0 ==> PayloadRead(old(link.incoming), old(link.at), first, size, data,
                                    link.incoming, link.at)
    ensures !link.faults && old(link.stalls) == 0 ==>
              (size - |first| <= |Ahead(old(link.incoming), old(link.at))| ==> rc == 0)
  {
    ghost var q, a := link.incoming, link.at;
    var payload := new byte[size](_ => 0);
    Append(payload, 0, first);
    assert payload[..|first|] == first;
    PayloadStarts(q, a, first);
    rc := Xmm626ReadLoop(link, payload, |first|, q, a, first);
    assert payload[..size] == payload[..];
    data := if rc == 0 then payload[..] else [];
  }

  /** Its loop. */
  method Xmm626ReadLoop(link: Link, payload: array<byte>, start: nat,
                        ghost q: seq<seq<byte>>, ghost a: nat, ghost first: seq<byte>)
    returns (rc: int)
    requires link.Valid() && |first| == start <= payload.Length
    requires PayloadRead(q, a, first, start, payload[..start], link.incoming, link.at)
    modifies link`incoming, link`at, link`stalls, payload
    ensures link.Valid() && link.stalls <= old(link.stalls)
    ensures rc == 0 || rc == -1
    ensures rc == 0 ==> PayloadRead(q, a, first, payload.Length, payload[..payload.Length],
                                    link.incoming, link.at)
    ensures !link.faults && old(link.stalls) == 0 && payload.Length - start <= |Ahead(q, a)| ==>
              rc == 0
  {
    var count, size := start, payload.Length;
    while count < size
      invariant |first| <= count <= size && link.Valid() && link.stalls <= old(link.stalls)
      invariant PayloadRead(q, a, first, count, payload[..count], link.incoming, link.at)
    {
      rc := ReadInto(link, payload, count, size - count, q, a, first);
      if rc <= 0 {
        return -1;
      }
      count := count + rc;
    }
    return 0;
  }

  /** The second half of `aries_fmt_recv` and `aries_rfs_recv`: at most 4032 bytes a read,
      and an empty transfer is tried again. */
  method AriesReadRest(link: Link, length: nat, first: seq<byte>)
    returns (rc: int, data: seq<byte>)
    requires link.Valid() && |first| <= length
    modifies link`incoming, link`at, link`stalls
    ensures link.Valid() && link.stalls <= old(link.stalls)
    ensures rc == 0 || rc == -1
    ensures rc == 0 ==> PayloadRead(old(link.incoming), old(link.at), first, length, data,
                                    link.incoming, link.at)
    ensures !link.faults ==>
              (length - |first| <= |Ahead(old(link.incoming), old(link.at))| ==> rc == 0)
  {
    ghost var q, a := link.incoming, link.at;
    var payload := new byte[length](_ => 0);
    Append(payload, 0, first);
    assert payload[..|first|] == first;
    PayloadStarts(q, a, first);
    rc := AriesReadLoop(link, payload, |first|, q, a, first);
    assert payload[..length] == payload[..];
    data := if rc == 0 then payload[..] else [];
  }

  /** Its loop. */
  method AriesReadLoop(link: Link, payload: array<byte>, start: nat,
                       ghost q: seq<seq<byte>>, ghost a: nat, ghost first: seq<byte>)
    returns (rc: int)
    requires link.Valid() && |first| == start <= payload.Length
    requires PayloadRead(q, a, first, start, payload[..start], link.incoming, link.at)
    modifies link`incoming, link`at, link`stalls, payload
    ensures link.Valid() && link.stalls <= old(link.stalls)
    ensures rc == 0 || rc == -1
    ensures rc == 0 ==> PayloadRead(q, a, first, payload.Length, payload[..payload.Length],
                                    link.incoming, link.at)
    ensures !link.faults && payload.Length - start <= |Ahead(q, a)| ==> rc == 0
  {
    var count, length := start, payload.Length;
    while count < length
      invariant |first| <= count <= length && link.Valid() && link.stalls <= old(link.stalls)
      invariant PayloadRead(q, a, first, count, payload[..count], link.incoming, link.at)
      decreases length - count, link.stalls
    {
      var chunk := if length - count < ARIES_BUFFER_LENGTH then length - count
                   else ARIES_BUFFER_LENGTH;
      rc := ReadInto(link, payload, count, chunk, q, a, first);
      if rc < 0 {
        return -1;
      }
      count := count + rc;
    }
    return 0;
  }

  // ---------------------------------------------------------------- what a receiver takes

  /** A receiver of frames with `h` header bytes that finds the announced length `n` has
      consumed `n` bytes and holds those behind the header.  A length of at most `h` means
      no payload: then all of its first read is gone. */
  ghost predicate Taken(q: seq<seq<byte>>, a: nat, h: nat, n: nat, data: seq<byte>,
                        incoming: seq<seq<byte>>, at: nat)
  {
    && Settled(q, a) && h <= |Ahead(q, a)|
    && if n > h then
         && n <= |Ahead(q, a)| && data == Ahead(q, a)[h..n]
         && (incoming, at) == Advance(q, a, n)
       else
         && data == []
         && q != [] && exists first :: h <= first <= |q[0]| - a
                                       && (incoming, at) == Advance(q, a, first)
  }

  /** After a first read of `first` bytes, the rest of the payload completes the frame. */
  lemma PayloadTaken(q: seq<seq<byte>>, a: nat, h: nat, n: nat, first: nat, data: seq<byte>,
                     incoming: seq<seq<byte>>, at: nat)
    requires Settled(q, a) && h <= first <= n && first <= |Ahead(q, a)|
    requires var p := Advance(q, a, first);
             PayloadRead(p.0, p.1, Ahead(q, a)[..first][h..], n - h, data, incoming, at)
    ensures n <= |Ahead(q, a)| && data == Ahead(q, a)[h..n]
    ensures (incoming, at) == Advance(q, a, n)
  {
    var all := Ahead(q, a);
    AheadAfter(q, a, first);
    AdvanceTwice(q, a, first, n - first);
    assert all[..first][h..] + all[first..][..n - first] == all[h..n];
  }

  /** Of a well-formed frame a receiver takes exactly the frame. */
  lemma TakenWhole(q: seq<seq<byte>>, h: nat, data: seq<byte>, incoming: seq<seq<byte>>, at: nat)
    requires q != [] && h <= |q[0]| && Taken(q, 0, h, |q[0]|, data, incoming, at)
    ensures data == q[0][h..] && incoming == q[1..] && at == 0
  {
    AdvanceFrame(q);
  }

  /** A first read of `first` bytes brings more than the message announces, so copying it
      leaves the payload of `n - h` bytes; with no payload nothing is copied. */
  predicate Overruns(first: nat, n: nat, h: nat) {
    n > h && first - h > n - h
  }

  /** No first read of at most `limit` bytes overruns a frame of announced length `n`. */
  predicate HeadFits(f: seq<byte>, n: nat, h: nat, limit: nat) {
    n <= h || Min(|f|, limit) <= n
  }

  lemma HeadFitsIff(f: seq<byte>, n: nat, h: nat, limit: nat)
    requires h <= |f| && h <= limit
    ensures (forall first: nat | h <= first <= |f| && first <= limit :: !Overruns(first, n, h))
            <==> HeadFits(f, n, h, limit)
  {
    assert h <= Min(|f|, limit) <= |f| && Min(|f|, limit) <= limit;
    if !HeadFits(f, n, h, limit) {
      assert Overruns(Min(|f|, limit), n, h);
    }
  }

  predicate FmtHeadSafe(queue: seq<seq<byte>>, at: nat, limit: nat)
    requires Settled(queue, at)
  {
    queue != [] && |queue[0]| - at >= FMT_HEADER_SIZE ==>
      HeadFits(queue[0][at..], ParseFmtHeader(queue[0][at..]).length, FMT_HEADER_SIZE, limit)
  }

  predicate RfsHeadSafe(queue: seq<seq<byte>>, at: nat, limit: nat)
    requires Settled(queue, at)
  {
    queue != [] && |queue[0]| - at >= RFS_HEADER_SIZE ==>
      HeadFits(queue[0][at..], ParseRfsHeader(queue[0][at..]).length, RFS_HEADER_SIZE, limit)
  }

  /** Aries subtracts the header size without a test, so a shorter length would wrap. */
  predicate FmtLongEnough(queue: seq<seq<byte>>, at: nat)
    requires Settled(queue, at)
  {
    queue != [] && |queue[0]| - at >= FMT_HEADER_SIZE ==>
      ParseFmtHeader(queue[0][at..]).length >= FMT_HEADER_SIZE
  }

  predicate RfsLongEnough(queue: seq<seq<byte>>, at: nat)
    requires Settled(queue, at)
  {
    queue != [] && |queue[0]| - at >= RFS_HEADER_SIZE ==>
      ParseRfsHeader(queue[0][at..]).length >= RFS_HEADER_SIZE
  }

  /** The header is the same in the first read, in the frame and in the bytes ahead. */
  lemma SameFmtHeader(queue: seq<seq<byte>>, at: nat, n: nat)
    requires Settled(queue, at) && queue != [] && FMT_HEADER_SIZE <= n <= |queue[0]| - at
    ensures n <= |Ahead(queue, at)|
    ensures ParseFmtHeader(Ahead(queue, at)) == ParseFmtHeader(queue[0][at..])
    ensures ParseFmtHeader(Ahead(queue, at)) == ParseFmtHeader(Ahead(queue, at)[..n])
  {
    var a, f := Ahead(queue, at), queue[0][at..];
    assert a[..2] == f[..2] == a[..n][..2];
  }

  lemma SameRfsHeader(queue: seq<seq<byte>>, at: nat, n: nat)
    requires Settled(queue, at) && queue != [] && RFS_HEADER_SIZE <= n <= |queue[0]| - at
    ensures n <= |Ahead(queue, at)|
    ensures ParseRfsHeader(Ahead(queue, at)) == ParseRfsHeader(queue[0][at..])
    ensures ParseRfsHeader(Ahead(queue, at)) == ParseRfsHeader(Ahead(queue, at)[..n])
  {
    var a, f := Ahead(queue, at), queue[0][at..];
    assert a[..4] == f[..4] == a[..n][..4];
  }

  /** A frame is at the head of the queue, whole and with its header, and everything it
      announces is there. */
  ghost predicate FmtReady(queue: seq<seq<byte>>, at: nat) {
    && Settled(queue, at) && at == 0 && queue != [] && |queue[0]| >= FMT_HEADER_SIZE
    && ParseFmtHeader(queue[0]).length <= |Ahead(queue, at)|
  }

  ghost predicate RfsReady(queue: seq<seq<byte>>, at: nat) {
    && Settled(queue, at) && at == 0 && queue != [] && |queue[0]| >= RFS_HEADER_SIZE
    && ParseRfsHeader(queue[0]).length <= |Ahead(queue, at)|
  }

  /** What a successful `fmt_recv` has taken and made of it. */
  ghost predicate FmtReceivedFrom(q: seq<seq<byte>>, a: nat, m: Message,
                                  incoming: seq<seq<byte>>, at: nat)
  {
    && Settled(q, a) && q != [] && |q[0]| - a >= FMT_HEADER_SIZE
    && var header := ParseFmtHeader(q[0][a..]);
       && m == FmtMessageOf(header, m.data)
       && Taken(q, a, FMT_HEADER_SIZE, header.length, m.data, incoming, at)
  }

  ghost predicate RfsReceivedFrom(q: seq<seq<byte>>, a: nat, m: Message,
                                  incoming: seq<seq<byte>>, at: nat)
  {
    && Settled(q, a) && q != [] && |q[0]| - a >= RFS_HEADER_SIZE
    && var header := ParseRfsHeader(q[0][a..]);
       && header.length <= DATA_SIZE_LIMIT
       && m == RfsMessageOf(header, m.data)
       && Taken(q, a, RFS_HEADER_SIZE, header.length, m.data, incoming, at)
  }

  /** In terms of the bytes at hand: the fields come from the first seven, and the payload is
      what the first two of them announce behind these. */
  lemma FmtReceivedBytes(q: seq<seq<byte>>, a: nat, m: Message, incoming: seq<seq<byte>>, at: nat)
    requires FmtReceivedFrom(q, a, m, incoming, at)
    ensures var b := Ahead(q, a);
            && |b| >= 7 && m.mseq == b[2] && m.aseq == b[3]
            && m.command == 256 * b[4] as nat + b[5] as nat && m.typ == b[6]
            && var n := b[0] as nat + 256 * b[1] as nat;
               if n > 7 then n <= |b| && m.data == b[7..n] else m.data == []
  {
    SameFmtHeader(q, a, FMT_HEADER_SIZE);
    ParseFmtLayout(Ahead(q, a), m.data);
  }

  lemma RfsReceivedBytes(q: seq<seq<byte>>, a: nat, m: Message, incoming: seq<seq<byte>>, at: nat)
    requires RfsReceivedFrom(q, a, m, incoming, at)
    ensures var b := Ahead(q, a);
            && |b| >= 6 && m.mseq == 0 && m.aseq == b[5]
            && m.command == 0x4200 + b[4] as nat && m.typ == 0
            && Word(b) <= 0x80000
            && if Word(b) > 6 then Word(b) <= |b| && m.data == b[6..Word(b)] else m.data == []
  {
    SameRfsHeader(q, a, RFS_HEADER_SIZE);
    ParseRfsLayout(Ahead(q, a), m.data);
  }

  /** From a well-formed frame it is the decoded frame, and the queue has lost just it. */
  lemma FmtReceivedWhole(q: seq<seq<byte>>, m: Message, incoming: seq<seq<byte>>, at: nat)
    requires FmtReceivedFrom(q, 0, m, incoming, at) && FmtWellFormed(q[0])
    ensures m == FmtDecode(q[0]) && incoming == q[1..] && at == 0
  {
    assert q[0][0..] == q[0];
    TakenWhole(q, FMT_HEADER_SIZE, m.data, incoming, at);
  }

  lemma RfsReceivedWhole(q: seq<seq<byte>>, m: Message, incoming: seq<seq<byte>>, at: nat)
    requires RfsReceivedFrom(q, 0, m, incoming, at) && RfsWellFormed(q[0])
    ensures m == RfsDecode(q[0]) && incoming == q[1..] && at == 0
  {
    assert q[0][0..] == q[0];
    TakenWhole(q, RFS_HEADER_SIZE, m.data, incoming, at);
  }

  /** After its first read an FMT receiver is about to leave the payload: what happens then
      is undefined.  Aries subtracts the header size without a test, so for `wraps` a shorter
      announced length is as bad. */
  ghost predicate FmtOutside(q: seq<seq<byte>>, a: nat, limit: nat, wraps: bool,
                             incoming: seq<seq<byte>>, at: nat)
  {
    && Settled(q, a) && q != [] && |q[0]| - a >= FMT_HEADER_SIZE
    && exists first: nat :: FMT_HEADER_SIZE <= first <= |q[0]| - a && first <= limit
         && (incoming, at) == Advance(q, a, first)
         && var n := ParseFmtHeader(q[0][a..]).length;
            Overruns(first, n, FMT_HEADER_SIZE) || (wraps && n < FMT_HEADER_SIZE)
  }

  ghost predicate RfsOutside(q: seq<seq<byte>>, a: nat, limit: nat, wraps: bool,
                             incoming: seq<seq<byte>>, at: nat)
  {
    && Settled(q, a) && q != [] && |q[0]| - a >= RFS_HEADER_SIZE
    && exists first: nat :: RFS_HEADER_SIZE <= first <= |q[0]| - a && first <= limit
         && (incoming, at) == Advance(q, a, first)
         && var n := ParseRfsHeader(q[0][a..]).length;
            Overruns(first, n, RFS_HEADER_SIZE) || (wraps && n < RFS_HEADER_SIZE)
  }

  /** Which cannot happen if the head of the queue is safe. */
  lemma FmtInside(q: seq<seq<byte>>, a: nat, limit: nat, wraps: bool,
                  incoming: seq<seq<byte>>, at: nat)
    requires Settled(q, a) && FmtHeadSafe(q, a, limit) && (wraps ==> FmtLongEnough(q, a))
    ensures !FmtOutside(q, a, limit, wraps, incoming, at)
  {
  }

  lemma RfsInside(q: seq<seq<byte>>, a: nat, limit: nat, wraps: bool,
                  incoming: seq<seq<byte>>, at: nat)
    requires Settled(q, a) && RfsHeadSafe(q, a, limit) && (wraps ==> RfsLongEnough(q, a))
    ensures !RfsOutside(q, a, limit, wraps, incoming, at)
  {
  }

  // ---------------------------------------------------------------- the receivers

  /** `xmm626_kernel_smdk4412_fmt_recv`, called at any position and for whatever bytes arrive. */
  method Xmm626FmtRecv(link: Link)
    returns (rc: int, message: Message, ghost outside: bool)
    requires link.Valid()
    modifies link`incoming, link`at, link`stalls
    ensures link.Valid() && link.stalls <= old(link.stalls)
    ensures rc == 0 || rc == -1
    ensures outside ==> rc == -1 && FmtOutside(old(link.incoming), old(link.at), XMM626_DATA_SIZE,
                                              false, link.incoming, link.at)
    ensures rc == 0 ==> FmtReceivedFrom(old(link.incoming), old(link.at), message,
                                        link.incoming, link.at)
    ensures !link.faults && old(link.stalls) == 0 && link.headerSize == FMT_HEADER_SIZE ==>
              (FmtReady(old(link.incoming), old(link.at)) ==>
                 rc == 0 || outside)
  {
    message, outside := EMPTY_MESSAGE, false;
    ghost var q, a := link.incoming, link.at;
    var buffer;
    rc, buffer := link.Read(XMM626_DATA_SIZE);
    if rc < FMT_HEADER_SIZE {
      rc := -1;
      return;
    }
    SameFmtHeader(q, a, rc);
    AheadAfter(q, a, rc);
    var first := rc;
    ghost var q1, a1 := link.incoming, link.at;
    var header := ParseFmtHeader(buffer);
    message := FmtMessageSetup(header);
    if Overruns(first, header.length, FMT_HEADER_SIZE) {
      outside, rc := true, -1;
      return;
    }
    if header.length > FMT_HEADER_SIZE {
      var data;
      rc, data := Xmm626ReadRest(link, header.length - FMT_HEADER_SIZE, buffer[FMT_HEADER_SIZE..]);
      message := message.(data := data);
      if rc == 0 {
        PayloadTaken(q, a, FMT_HEADER_SIZE, header.length, first, data, link.incoming, link.at);
      }
      return;
    }
    rc := 0;
  }

  /** `xmm626_kernel_smdk4412_rfs_recv`, called at any position and for whatever bytes arrive. */
  method Xmm626RfsRecv(link: Link)
    returns (rc: int, message: Message, ghost outside: bool)
    requires link.Valid()
    modifies link`incoming, link`at, link`stalls
    ensures link.Valid() && link.stalls <= old(link.stalls)
    ensures rc == 0 || rc == -1
    ensures outside ==> rc == -1 && RfsOutside(old(link.incoming), old(link.at), XMM626_DATA_SIZE,
                                              false, link.incoming, link.at)
    ensures rc == 0 ==> RfsReceivedFrom(old(link.incoming), old(link.at), message,
                                        link.incoming, link.at)
    ensures !link.faults && old(link.stalls) == 0 && link.headerSize == RFS_HEADER_SIZE ==>
              (RfsReady(old(link.incoming), old(link.at)) ==>
                 (rc == 0 || outside
                  <==> ParseRfsHeader(old(link.incoming)[0]).length <= DATA_SIZE_LIMIT))
  {
    message, outside := EMPTY_MESSAGE, false;
    ghost var q, a := link.incoming, link.at;
    var buffer;
    rc, buffer := link.Read(XMM626_DATA_SIZE);
    if rc < RFS_HEADER_SIZE {
      rc := -1;
      return;
    }
    SameRfsHeader(q, a, rc);
    AheadAfter(q, a, rc);
    var first := rc;
    ghost var q1, a1 := link.incoming, link.at;
    var header := ParseRfsHeader(buffer);
    if header.length > DATA_SIZE_LIMIT {
      rc := -1;
      return;
    }
    message := RfsMessageSetup(header);
    if Overruns(first, header.length, RFS_HEADER_SIZE) {
      outside, rc := true, -1;
      return;
    }
    if header.length > RFS_HEADER_SIZE {
      var data;
      rc, data := Xmm626ReadRest(link, header.length - RFS_HEADER_SIZE, buffer[RFS_HEADER_SIZE..]);
      message := message.(data := data);
      if rc == 0 {
        PayloadTaken(q, a, RFS_HEADER_SIZE, header.length, first, data, link.incoming, link.at);
      }
      return;
    }
    rc := 0;
  }

  /** `aries_fmt_recv`, called at any position and for whatever bytes arrive. */
  method AriesFmtRecv(link: Link)
    returns (rc: int, message: Message, ghost outside: bool)
    requires link.Valid()
    modifies link`incoming, link`at, link`stalls
    ensures link.Valid() && link.stalls <= old(link.stalls)
    ensures rc == 0 || rc == -1
    ensures outside ==> rc == -1 && FmtOutside(old(link.incoming), old(link.at), ARIES_BUFFER_LENGTH,
                                              true, link.incoming, link.at)
    ensures rc == 0 ==> FmtReceivedFrom(old(link.incoming), old(link.at), message,
                                        link.incoming, link.at)
    ensures !link.faults && link.headerSize == FMT_HEADER_SIZE ==>
              (FmtReady(old(link.incoming), old(link.at)) ==>
                 || rc == 0 || outside
                 || (link.incoming == old(link.incoming) && link.at == old(link.at)
                     && link.stalls < old(link.stalls)))
  {
    message, outside := EMPTY_MESSAGE, false;
    ghost var q, a := link.incoming, link.at;
    var buffer;
    rc, buffer := link.Read(ARIES_BUFFER_LENGTH);
    if rc < FMT_HEADER_SIZE {
      rc := -1;
      return;
    }
    SameFmtHeader(q, a, rc);
    AheadAfter(q, a, rc);
    var first := rc;
    ghost var q1, a1 := link.incoming, link.at;
    var header := ParseFmtHeader(buffer);
    message := FmtMessageSetup(header);
    if header.length < FMT_HEADER_SIZE || Overruns(first, header.length, FMT_HEADER_SIZE) {
      outside, rc := true, -1;
      return;
    }
    var length := header.length - FMT_HEADER_SIZE;
    var begun := [];
    if length > 0 {
      begun := buffer[FMT_HEADER_SIZE..];
    }
    var data;
    rc, data := AriesReadRest(link, length, begun);
    message := message.(data := data);
    if rc == 0 && length > 0 {
      PayloadTaken(q, a, FMT_HEADER_SIZE, header.length, first, data, link.incoming, link.at);
    }
  }

  /** `aries_rfs_recv`, called at any position and for whatever bytes arrive. */
  method AriesRfsRecv(link: Link)
    returns (rc: int, message: Message, ghost outside: bool)
    requires link.Valid()
    modifies link`incoming, link`at, link`stalls
    ensures link.Valid() && link.stalls <= old(link.stalls)
    ensures rc == 0 || rc == -1
    ensures outside ==> rc == -1 && RfsOutside(old(link.incoming), old(link.at), ARIES_BUFFER_LENGTH,
                                              true, link.incoming, link.at)
    ensures rc == 0 ==> RfsReceivedFrom(old(link.incoming), old(link.at), message,
                                        link.incoming, link.at)
    ensures !link.faults && link.headerSize == RFS_HEADER_SIZE ==>
              (RfsReady(old(link.incoming), old(link.at)) ==>
                 || (rc == 0 || outside
                     <==> ParseRfsHeader(old(link.incoming)[0]).length <= DATA_SIZE_LIMIT)
                 || (link.incoming == old(link.incoming) && link.at == old(link.at)
                     && link.stalls < old(link.stalls)))
  {
    message, outside := EMPTY_MESSAGE, false;
    ghost var q, a := link.incoming, link.at;
    var buffer;
    rc, buffer := link.Read(ARIES_BUFFER_LENGTH);
    if rc < RFS_HEADER_SIZE {
      rc := -1;
      return;
    }
    SameRfsHeader(q, a, rc);
    AheadAfter(q, a, rc);
    var first := rc;
    ghost var q1, a1 := link.incoming, link.at;
    var header := ParseRfsHeader(buffer);
    if header.length > DATA_SIZE_LIMIT {
      rc := -1;
      return;
    }
    message := RfsMessageSetup(header);
    if header.length < RFS_HEADER_SIZE || Overruns(first, header.length, RFS_HEADER_SIZE) {
      outside, rc := true, -1;
      return;
    }
    var length := header.length - RFS_HEADER_SIZE;
    var begun := [];
    if length > 0 {
      begun := buffer[RFS_HEADER_SIZE..];
    }
    var data;
    rc, data := AriesReadRest(link, length, begun);
    message := message.(data := data);
    if rc == 0 && length > 0 {
      PayloadTaken(q, a, RFS_HEADER_SIZE, header.length, first, data, link.incoming, link.at);
    }
  }
}
