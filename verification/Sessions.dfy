/** Whole sessions: messages sent one after the other by the senders of a device, the byte
    stream cut at its length fields, and as many calls of its receivers. */
module Sessions {
  import opened Bytes
  import opened Protocol
  import opened Framing

  lemma FmtQueueSettled(queue: seq<seq<byte>>)
    requires forall i | 0 <= i < |queue| :: FmtWellFormed(queue[i])
    ensures Settled(queue, 0)
  {
  }

  lemma RfsQueueSettled(queue: seq<seq<byte>>)
    requires forall i | 0 <= i < |queue| :: RfsWellFormed(queue[i])
    ensures Settled(queue, 0)
  {
  }

  /** The next message of a queue is at hand: no read can overrun it, and it is complete. */
  lemma FmtNext(queue: seq<seq<byte>>, limit: nat)
    requires queue != [] && forall i | 0 <= i < |queue| :: FmtWellFormed(queue[i])
    ensures Settled(queue, 0) && FmtReady(queue, 0)
    ensures FmtHeadSafe(queue, 0, limit) && FmtLongEnough(queue, 0)
  {
    assert queue[0][0..] == queue[0];
    AdvanceFrame(queue);
  }

  lemma RfsNext(queue: seq<seq<byte>>, limit: nat)
    requires queue != [] && forall i | 0 <= i < |queue| :: RfsWellFormed(queue[i])
    ensures Settled(queue, 0) && RfsReady(queue, 0)
    ensures RfsHeadSafe(queue, 0, limit) && RfsLongEnough(queue, 0)
  {
    assert queue[0][0..] == queue[0];
    AdvanceFrame(queue);
  }

  /** The queue holds well-formed frames that decode to these messages. */
  ghost predicate Delivers(queue: seq<seq<byte>>, ms: seq<Message>) {
    && |queue| == |ms|
    && forall i | 0 <= i < |queue| :: RfsWellFormed(queue[i]) && RfsDecode(queue[i]) == ms[i]
  }

  predicate WithinLimit(ms: seq<Message>) {
    forall i | 0 <= i < |ms| :: |ms[i].data| + RFS_HEADER_SIZE <= DATA_SIZE_LIMIT
  }

  lemma DeliversNext(queue: seq<seq<byte>>, ms: seq<Message>)
    requires Delivers(queue, ms) && ms != []
    ensures queue != [] && RfsWellFormed(queue[0]) && RfsDecode(queue[0]) == ms[0]
    ensures |queue[0]| == |ms[0].data| + RFS_HEADER_SIZE
    ensures Delivers(queue[1..], ms[1..])
  {
  }

  // ---------------------------------------------------------------- FMT over the XMM626 kernel driver

  method Xmm626FmtSendAll(link: Link, ms: seq<Message>) returns (rc: int)
    requires forall i | 0 <= i < |ms| :: |ms[i].data| + FMT_HEADER_SIZE <= 0xFFFF
    modifies link`wire, link`stalls
    ensures rc == 0 || rc == -1
    ensures rc == 0 ==> link.wire == FmtWireAfter(old(link.wire), ms)
    ensures !link.faults && old(link.stalls) == 0 ==> rc == 0
  {
    assert ms[0..] == ms;
    for i := 0 to |ms|
      invariant FmtWireAfter(link.wire, ms[i..]) == FmtWireAfter(old(link.wire), ms)
      invariant !link.faults && old(link.stalls) == 0 ==> link.stalls == 0
    {
      assert ms[i..][0] == ms[i] && ms[i..][1..] == ms[i + 1..];
      rc := Xmm626FmtSend(link, ms[i]);
      if rc < 0 {
        return -1;
      }
    }
    return 0;
  }

  /** One call of the receiver on such a queue; it never leaves its payload. */
  method Xmm626FmtRecvOne(link: Link) returns (rc: int, m: Message)
    requires link.Valid() && link.at == 0 && link.incoming != []
    requires forall i | 0 <= i < |link.incoming| :: FmtWellFormed(link.incoming[i])
    modifies link`incoming, link`at, link`stalls
    ensures link.Valid() && link.stalls <= old(link.stalls)
    ensures rc == 0 || rc == -1
    ensures rc == 0 ==>
              && FmtWellFormed(old(link.incoming)[0]) && m == FmtDecode(old(link.incoming)[0])
              && link.incoming == old(link.incoming)[1..] && link.at == 0
    ensures !link.faults && old(link.stalls) == 0 && link.headerSize == FMT_HEADER_SIZE ==>
              rc == 0
  {
    ghost var q, outside := link.incoming, false;
    FmtNext(q, XMM626_DATA_SIZE);
    rc, m, outside := Xmm626FmtRecv(link);
    FmtInside(q, 0, XMM626_DATA_SIZE, false, link.incoming, link.at);
    if rc == 0 {
      FmtReceivedWhole(q, m, link.incoming, link.at);
    }
  }

  method Xmm626FmtRecvAll(link: Link, n: nat) returns (rc: int, ms: seq<Message>)
    requires link.Valid() && link.at == 0 && |link.incoming| == n
    requires forall i | 0 <= i < n :: FmtWellFormed(link.incoming[i])
    modifies link`incoming, link`at, link`stalls
    ensures rc == 0 || rc == -1
    ensures rc == 0 ==> ms == FmtReceived(old(link.incoming), n)
    ensures !link.faults && old(link.stalls) == 0 && link.headerSize == FMT_HEADER_SIZE ==> rc == 0
  {
    ms := [];
    ghost var queue := link.incoming;
    ghost var clean := !link.faults && link.stalls == 0;
    for i := 0 to n
      invariant link.Valid() && link.at == 0 && link.incoming == queue[i..]
      invariant |ms| == i
      invariant forall k | 0 <= k < i :: FmtWellFormed(queue[k]) && FmtDecode(queue[k]) == ms[k]
      invariant clean ==> !link.faults && link.stalls == 0
    {
      assert link.incoming[0] == queue[i] && link.incoming[1..] == queue[i + 1..];
      var m;
      rc, m := Xmm626FmtRecvOne(link);
      if rc < 0 {
        return -1, ms;
      }
      ms := ms + [m];
    }
    FmtReceivedFrames(queue, ms);
    return 0, ms;
  }

  /** For every schedule of partial transfers on both ways, a session that succeeds
      returns the messages sent, all of them, in order and unchanged; without failing or
      empty transfers it succeeds. */
  method Xmm626FmtSession(ms: seq<Message>, faults: bool, sendStalls: nat, recvStalls: nat)
    returns (rc: int, received: seq<Message>)
    requires forall i | 0 <= i < |ms| :: |ms[i].data| + FMT_HEADER_SIZE <= 0xFFFF
    ensures rc == 0 ==> received == ms
    ensures !faults && sendStalls == 0 && recvStalls == 0 ==> rc == 0
  {
    received := [];
    var out := new Link(FMT_HEADER_SIZE, false, faults, sendStalls, []);
    rc := Xmm626FmtSendAll(out, ms);
    if rc < 0 {
      return;
    }
    FmtSession(ms);
    var queue := FmtDeframe(out.wire).value;
    FmtQueueSettled(queue);
    var back := new Link(FMT_HEADER_SIZE, false, faults, recvStalls, queue);
    rc, received := Xmm626FmtRecvAll(back, |ms|);
  }

  // ---------------------------------------------------------------- FMT over Aries

  method AriesFmtSendAll(link: Link, ms: seq<Message>) returns (rc: int)
    requires forall i | 0 <= i < |ms| :: |ms[i].data| + FMT_HEADER_SIZE <= 0xFFFF
    modifies link`wire, link`stalls
    ensures rc == 0 || rc == -1
    ensures rc == 0 ==> link.wire == FmtWireAfter(old(link.wire), ms)
    ensures !link.faults ==> rc == 0
  {
    assert ms[0..] == ms;
    for i := 0 to |ms|
      invariant FmtWireAfter(link.wire, ms[i..]) == FmtWireAfter(old(link.wire), ms)
    {
      assert ms[i..][0] == ms[i] && ms[i..][1..] == ms[i + 1..];
      rc := AriesFmtSend(link, ms[i]);
      if rc < 0 {
        return -1;
      }
    }
    return 0;
  }

  /** One call of the receiver on such a queue; it never leaves its payload. */
  method AriesFmtRecvOne(link: Link) returns (rc: int, m: Message)
    requires link.Valid() && link.at == 0 && link.incoming != []
    requires forall i | 0 <= i < |link.incoming| :: FmtWellFormed(link.incoming[i])
    modifies link`incoming, link`at, link`stalls
    ensures link.Valid() && link.stalls <= old(link.stalls)
    ensures rc == 0 || rc == -1
    ensures rc == 0 ==>
              && FmtWellFormed(old(link.incoming)[0]) && m == FmtDecode(old(link.incoming)[0])
              && link.incoming == old(link.incoming)[1..] && link.at == 0
    ensures !link.faults && old(link.stalls) == 0 && link.headerSize == FMT_HEADER_SIZE ==>
              rc == 0
  {
    ghost var q, outside := link.incoming, false;
    FmtNext(q, ARIES_BUFFER_LENGTH);
    rc, m, outside := AriesFmtRecv(link);
    FmtInside(q, 0, ARIES_BUFFER_LENGTH, true, link.incoming, link.at);
    if rc == 0 {
      FmtReceivedWhole(q, m, link.incoming, link.at);
    }
  }

  method AriesFmtRecvAll(link: Link, n: nat) returns (rc: int, ms: seq<Message>)
    requires link.Valid() && link.at == 0 && |link.incoming| == n
    requires forall i | 0 <= i < n :: FmtWellFormed(link.incoming[i])
    modifies link`incoming, link`at, link`stalls
    ensures rc == 0 || rc == -1
    ensures rc == 0 ==> ms == FmtReceived(old(link.incoming), n)
    ensures !link.faults && old(link.stalls) == 0 && link.headerSize == FMT_HEADER_SIZE ==> rc == 0
  {
    ms := [];
    ghost var queue := link.incoming;
    ghost var clean := !link.faults && link.stalls == 0;
    for i := 0 to n
      invariant link.Valid() && link.at == 0 && link.incoming == queue[i..]
      invariant |ms| == i
      invariant forall k | 0 <= k < i :: FmtWellFormed(queue[k]) && FmtDecode(queue[k]) == ms[k]
      invariant clean ==> !link.faults && link.stalls == 0
    {
      assert link.incoming[0] == queue[i] && link.incoming[1..] == queue[i + 1..];
      var m;
      rc, m := AriesFmtRecvOne(link);
      if rc < 0 {
        return -1, ms;
      }
      ms := ms + [m];
    }
    FmtReceivedFrames(queue, ms);
    return 0, ms;
  }

  /** For every schedule of partial transfers on both ways, a session that succeeds
      returns the messages sent, all of them, in order and unchanged; empty transfers of
      the sender do no harm. */
  method AriesFmtSession(ms: seq<Message>, faults: bool, sendStalls: nat, recvStalls: nat)
    returns (rc: int, received: seq<Message>)
    requires forall i | 0 <= i < |ms| :: |ms[i].data| + FMT_HEADER_SIZE <= 0xFFFF
    ensures rc == 0 ==> received == ms
    ensures !faults && recvStalls == 0 ==> rc == 0
  {
    received := [];
    var out := new Link(FMT_HEADER_SIZE, false, faults, sendStalls, []);
    rc := AriesFmtSendAll(out, ms);
    if rc < 0 {
      return;
    }
    FmtSession(ms);
    var queue := FmtDeframe(out.wire).value;
    FmtQueueSettled(queue);
    var back := new Link(FMT_HEADER_SIZE, false, faults, recvStalls, queue);
    rc, received := AriesFmtRecvAll(back, |ms|);
  }

  // ---------------------------------------------------------------- RFS over both

  method Xmm626RfsSendAll(link: Link, ms: seq<Message>) returns (rc: int)
    requires forall i | 0 <= i < |ms| :: |ms[i].data| + RFS_HEADER_SIZE <= 0xFFFF_FFFF
    modifies link`wire, link`stalls
    ensures rc == 0 || rc == -1
    ensures rc == 0 ==> link.wire == RfsWireAfter(old(link.wire), ms)
    ensures !link.faults && old(link.stalls) == 0 ==> rc == 0
  {
    assert ms[0..] == ms;
    for i := 0 to |ms|
      invariant RfsWireAfter(link.wire, ms[i..]) == RfsWireAfter(old(link.wire), ms)
      invariant !link.faults && old(link.stalls) == 0 ==> link.stalls == 0
    {
      assert ms[i..][0] == ms[i] && ms[i..][1..] == ms[i + 1..];
      rc := Xmm626RfsSend(link, ms[i]);
      if rc < 0 {
        return -1;
      }
    }
    return 0;
  }

  method AriesRfsSendAll(link: Link, ms: seq<Message>) returns (rc: int)
    requires forall i | 0 <= i < |ms| :: |ms[i].data| + RFS_HEADER_SIZE <= 0xFFFF_FFFF
    modifies link`wire, link`stalls
    ensures rc == 0 || rc == -1
    ensures rc == 0 ==> link.wire == RfsWireAfter(old(link.wire), ms)
    ensures !link.faults ==> rc == 0
  {
    assert ms[0..] == ms;
    for i := 0 to |ms|
      invariant RfsWireAfter(link.wire, ms[i..]) == RfsWireAfter(old(link.wire), ms)
    {
      assert ms[i..][0] == ms[i] && ms[i..][1..] == ms[i + 1..];
      rc := AriesRfsSend(link, ms[i]);
      if rc < 0 {
        return -1;
      }
    }
    return 0;
  }

  /** One call of the receiver on such a queue; it never leaves its payload. */
  method Xmm626RfsRecvOne(link: Link) returns (rc: int, m: Message)
    requires link.Valid() && link.at == 0 && link.incoming != []
    requires forall i | 0 <= i < |link.incoming| :: RfsWellFormed(link.incoming[i])
    modifies link`incoming, link`at, link`stalls
    ensures link.Valid() && link.stalls <= old(link.stalls)
    ensures rc == 0 || rc == -1
    ensures rc == 0 ==>
              && RfsWellFormed(old(link.incoming)[0]) && m == RfsDecode(old(link.incoming)[0])
              && link.incoming == old(link.incoming)[1..] && link.at == 0
    ensures !link.faults && old(link.stalls) == 0 && link.headerSize == RFS_HEADER_SIZE ==>
              (rc == 0 <==> |old(link.incoming)[0]| <= DATA_SIZE_LIMIT)
  {
    ghost var q, outside := link.incoming, false;
    RfsNext(q, XMM626_DATA_SIZE);
    rc, m, outside := Xmm626RfsRecv(link);
    RfsInside(q, 0, XMM626_DATA_SIZE, false, link.incoming, link.at);
    if rc == 0 {
      RfsReceivedWhole(q, m, link.incoming, link.at);
    }
  }

  method Xmm626RfsRecvAll(link: Link, n: nat, ghost expected: seq<Message>)
    returns (rc: int, ms: seq<Message>)
    requires link.Valid() && link.at == 0 && |expected| == n
    requires Delivers(link.incoming, expected)
    modifies link`incoming, link`at, link`stalls
    ensures rc == 0 || rc == -1
    ensures rc == 0 ==> ms == expected
    ensures !link.faults && old(link.stalls) == 0 && link.headerSize == RFS_HEADER_SIZE ==>
              (rc == 0 <==> WithinLimit(expected))
  {
    ms := [];
    ghost var clean := !link.faults && link.stalls == 0 && link.headerSize == RFS_HEADER_SIZE;
    for i := 0 to n
      invariant link.Valid() && link.at == 0 && Delivers(link.incoming, expected[i..])
      invariant ms == expected[..i]
      invariant clean ==> !link.faults && link.stalls == 0 && WithinLimit(expected[..i])
    {
      ghost var q := link.incoming;
      DeliversNext(q, expected[i..]);
      var m;
      rc, m := Xmm626RfsRecvOne(link);
      if rc < 0 {
        assert clean ==> |expected[i].data| + RFS_HEADER_SIZE > DATA_SIZE_LIMIT;
        return -1, ms;
      }
      assert expected[i..][1..] == expected[i + 1..] && expected[..i] + [m] == expected[..i + 1];
      ms := ms + [m];
    }
    assert expected[..n] == expected;
    return 0, ms;
  }

  /** The same for RFS: what returns are the projections of the messages sent, and a session
      without failing or empty transfers succeeds exactly if every frame is within the limit
      of the receiver. */
  method Xmm626RfsSession(ms: seq<Message>, faults: bool, sendStalls: nat, recvStalls: nat)
    returns (rc: int, received: seq<Message>)
    requires forall i | 0 <= i < |ms| :: |ms[i].data| + RFS_HEADER_SIZE <= 0xFFFF_FFFF
    ensures rc == 0 ==>
              |received| == |ms| && forall i | 0 <= i < |ms| :: received[i] == RfsProjection(ms[i])
    ensures !faults && sendStalls == 0 && recvStalls == 0 ==>
              (rc == 0 <==> WithinLimit(ms))
  {
    received := [];
    var out := new Link(RFS_HEADER_SIZE, false, faults, sendStalls, []);
    rc := Xmm626RfsSendAll(out, ms);
    if rc < 0 {
      return;
    }
    RfsSession(ms);
    var queue := RfsDeframe(out.wire).value;
    RfsQueueSettled(queue);
    var back := new Link(RFS_HEADER_SIZE, false, faults, recvStalls, queue);
    ghost var expected := seq(|ms|, i requires 0 <= i < |ms| => RfsProjection(ms[i]));
    rc, received := Xmm626RfsRecvAll(back, |ms|, expected);
    assert forall i | 0 <= i < |ms| :: |expected[i].data| == |ms[i].data|;
  }

  /** One call of the receiver on such a queue; it never leaves its payload. */
  method AriesRfsRecvOne(link: Link) returns (rc: int, m: Message)
    requires link.Valid() && link.at == 0 && link.incoming != []
    requires forall i | 0 <= i < |link.incoming| :: RfsWellFormed(link.incoming[i])
    modifies link`incoming, link`at, link`stalls
    ensures link.Valid() && link.stalls <= old(link.stalls)
    ensures rc == 0 || rc == -1
    ensures rc == 0 ==>
              && RfsWellFormed(old(link.incoming)[0]) && m == RfsDecode(old(link.incoming)[0])
              && link.incoming == old(link.incoming)[1..] && link.at == 0
    ensures !link.faults && old(link.stalls) == 0 && link.headerSize == RFS_HEADER_SIZE ==>
              (rc == 0 <==> |old(link.incoming)[0]| <= DATA_SIZE_LIMIT)
  {
    ghost var q, outside := link.incoming, false;
    RfsNext(q, ARIES_BUFFER_LENGTH);
    rc, m, outside := AriesRfsRecv(link);
    RfsInside(q, 0, ARIES_BUFFER_LENGTH, true, link.incoming, link.at);
    if rc == 0 {
      RfsReceivedWhole(q, m, link.incoming, link.at);
    }
  }

  method AriesRfsRecvAll(link: Link, n: nat, ghost expected: seq<Message>)
    returns (rc: int, ms: seq<Message>)
    requires link.Valid() && link.at == 0 && |expected| == n
    requires Delivers(link.incoming, expected)
    modifies link`incoming, link`at, link`stalls
    ensures rc == 0 || rc == -1
    ensures rc == 0 ==> ms == expected
    ensures !link.faults && old(link.stalls) == 0 && link.headerSize == RFS_HEADER_SIZE ==>
              (rc == 0 <==> WithinLimit(expected))
  {
    ms := [];
    ghost var clean := !link.faults && link.stalls == 0 && link.headerSize == RFS_HEADER_SIZE;
    for i := 0 to n
      invariant link.Valid() && link.at == 0 && Delivers(link.incoming, expected[i..])
      invariant ms == expected[..i]
      invariant clean ==> !link.faults && link.stalls == 0 && WithinLimit(expected[..i])
    {
      ghost var q := link.incoming;
      DeliversNext(q, expected[i..]);
      var m;
      rc, m := AriesRfsRecvOne(link);
      if rc < 0 {
        assert clean ==> |expected[i].data| + RFS_HEADER_SIZE > DATA_SIZE_LIMIT;
        return -1, ms;
      }
      assert expected[i..][1..] == expected[i + 1..] && expected[..i] + [m] == expected[..i + 1];
      ms := ms + [m];
    }
    assert expected[..n] == expected;
    return 0, ms;
  }

  /** The same for RFS: what returns are the projections of the messages sent, and a session
      without failing or empty reads succeeds exactly if every frame is within the limit
      of the receiver. */
  method AriesRfsSession(ms: seq<Message>, faults: bool, sendStalls: nat, recvStalls: nat)
    returns (rc: int, received: seq<Message>)
    requires forall i | 0 <= i < |ms| :: |ms[i].data| + RFS_HEADER_SIZE <= 0xFFFF_FFFF
    ensures rc == 0 ==>
              |received| == |ms| && forall i | 0 <= i < |ms| :: received[i] == RfsProjection(ms[i])
    ensures !faults && recvStalls == 0 ==>
              (rc == 0 <==> WithinLimit(ms))
  {
    received := [];
    var out := new Link(RFS_HEADER_SIZE, false, faults, sendStalls, []);
    rc := AriesRfsSendAll(out, ms);
    if rc < 0 {
      return;
    }
    RfsSession(ms);
    var queue := RfsDeframe(out.wire).value;
    RfsQueueSettled(queue);
    var back := new Link(RFS_HEADER_SIZE, false, faults, recvStalls, queue);
    ghost var expected := seq(|ms|, i requires 0 <= i < |ms| => RfsProjection(ms[i]));
    rc, received := AriesRfsRecvAll(back, |ms|, expected);
    assert forall i | 0 <= i < |ms| :: |expected[i].data| == |ms[i].data|;
  }
}
