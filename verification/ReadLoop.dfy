/** The receive loops of the push client: read into the buffer, then cut out whole frames. */
module ReadLoop {
  import opened Options
  import opened Words
  import opened Wire
  import opened Messages
  import opened MessageObjects
  import opened ByteBuffer
  import opened Deframing
  import BufferStates
  import MessageProofs

  const COMPACT_THRESHOLD := 65535

  /** One pass: parse a head, see whether its body is complete, parse the body. */
  method TryFrame(bytes: Bytes, head: MsgHead, body: MsgBody, limit: CopyLimit) returns (pass: Pass)
    modifies head, body
    ensures pass == PassOnce(bytes, limit)
  {
    hide ParseHead, ParseBody, SerializeBody, BodyOk;
    if |bytes| < HEAD_SIZE {
      return Idle;
    }
    var status := head.ParseFromArray(bytes[..HEAD_SIZE]);
    if status != Success {
      return if status == Failure then Spin else Undefined;
    }
    var n := head.msgbodyLen;
    if |bytes| < (HEAD_SIZE + n) % TWO_32 {
      return Idle;
    }
    if n == 0 {
      return Deliver([], HEAD_SIZE);
    }
    if n > MAX_BODY {
      return Undefined;
    }
    status := body.ParseFromArray(bytes[HEAD_SIZE..HEAD_SIZE + n]);
    if status != Success {
      return if status == Failure then Spin else Undefined;
    }
    if limit.Some? && |body.body| > limit.value {
      return Undefined;
    }
    MessageProofs.ParsedBodyOk(bytes[HEAD_SIZE..HEAD_SIZE + n]);
    var size := body.ByteSize();
    return Deliver([body.body], HEAD_SIZE + size);
  }

  /** A skip always fits the `int` step of the buffer. */
  lemma SkipFitsInt(bytes: Bytes, limit: CopyLimit)
    ensures PassOnce(bytes, limit).Deliver? ==> PassOnce(bytes, limit).consumed <= MAX_LENGTH
  {
    hide ParseHead, ParseBody, SerializeBody;
    if PassOnce(bytes, limit).Deliver? {
      var n := ParseHead(bytes[..HEAD_SIZE]).message.msgbodyLen.value;
      if n != 0 {
        MessageProofs.BodySizeExactIff(bytes[HEAD_SIZE..HEAD_SIZE + n]);
      }
    }
  }

  /** The inner loop. Where the original would try the same bytes forever, or leave defined
      behaviour, it stops and says so. `compacting` is the variant that shrinks the buffer
      after each delivery. */
  method DrainFrames(buf: CBuffer, head: MsgHead, body: MsgBody, limit: CopyLimit, compacting: bool, memory: bool)
    returns (delivered: seq<Bytes>, last: Pass)
    requires buf.Valid() && (compacting ==> |buf.View().pending| < TWO_32)
    modifies buf, head, body
    ensures buf.Valid() && (fresh(buf.buffer) || buf.buffer == old(buf.buffer))
    ensures Drained(delivered, buf.View().pending, last) == Drain(old(buf.View().pending), limit)
  {
    hide PassOnce, Drain, BufferStates.Compact, BufferStates.Compacts;
    delivered := [];
    ghost var all := buf.View().pending;
    while true
      invariant buf.Valid() && (fresh(buf.buffer) || buf.buffer == old(buf.buffer))
      invariant compacting ==> |buf.View().pending| < TWO_32
      invariant Continues(delivered, buf.View().pending, all, limit)
      decreases |buf.View().pending|
    {
      ghost var pending := buf.View().pending;
      DrainStep(pending, limit);
      SkipFitsInt(pending, limit);
      var bytes := buf.ToString();
      var pass := TryFrame(bytes, head, body, limit);
      if !pass.Deliver? {
        assert delivered + [] == delivered;
        return delivered, pass;
      }
      ContinuesOn(delivered, pending, all, limit);
      delivered := delivered + pass.bodies;
      buf.SkipBytes(pass.consumed);
      if compacting && pass.bodies != [] {
        CompactKeepsPending(buf.View(), COMPACT_THRESHOLD, memory);
        var _ := buf.Compact(COMPACT_THRESHOLD, memory);
      }
    }
  }

  lemma ContinuesOn(delivered: seq<Bytes>, pending: Bytes, all: Bytes, limit: CopyLimit)
    requires Continues(delivered, pending, all, limit) && PassOnce(pending, limit).Deliver?
    ensures var pass := PassOnce(pending, limit);
            && 0 < pass.consumed <= |pending|
            && Continues(delivered + pass.bodies, pending[pass.consumed..], all, limit)
  {
    hide PassOnce, Drain;
    DrainStep(pending, limit);
    var pass := PassOnce(pending, limit);
    var d := Drain(pending[pass.consumed..], limit);
    assert delivered + (pass.bodies + d.delivered) == delivered + pass.bodies + d.delivered;
  }

  /** One turn of the outer loop, memory permitting. */
  method Poll(buf: CBuffer, chunk: Bytes, head: MsgHead, body: MsgBody, limit: CopyLimit, compacting: bool)
    returns (delivered: seq<Bytes>, last: Pass)
    requires buf.Valid() && (compacting ==> |buf.View().pending| + |chunk| < TWO_32)
    modifies buf, buf.buffer, head, body
    ensures buf.Valid() && (fresh(buf.buffer) || buf.buffer == old(buf.buffer))
    ensures Drained(delivered, buf.View().pending, last) == Drain(old(buf.View().pending) + chunk, limit)
  {
    hide Drain, BufferStates.ReadFD;
    BufferStates.ReadFDAppends(buf.View(), chunk);
    var _ := buf.ReadFD(chunk, true);
    delivered, last := DrainFrames(buf, head, body, limit, compacting, true);
  }

  /** When a read comes, what is left in the buffer and what is read are together within the
      32 bits that compaction counts with. */
  ghost predicate ReadsFit(chunks: seq<Bytes>, limit: CopyLimit) {
    forall i | 0 <= i < |chunks| :: |Session(chunks[..i], limit).rest| + |chunks[i]| < TWO_32
  }

  /** The outer loop over everything `read` returned: a buffer that lives as long as the
      loop, as in the test client, where compaction is on and no copy limits the bodies, and
      within one activation of the push client's callback, where it is off. */
  method Receive(chunks: seq<Bytes>, limit: CopyLimit, compacting: bool)
    returns (delivered: seq<Bytes>, rest: Bytes, last: Pass)
    requires compacting ==> ReadsFit(chunks, limit)
    ensures Drained(delivered, rest, last) == Session(chunks, limit)
  {
    hide *;
    var buf := new CBuffer();
    var head := new MsgHead();
    var body := new MsgBody();
    delivered, rest, last := [], [], Idle;
    NothingPending();
    SessionStarts(chunks, limit);
    for i := 0 to |chunks|
      invariant buf.Valid() && fresh(buf) && fresh(buf.buffer) && fresh(head) && fresh(body)
      invariant buf.View().pending == rest && last == Idle
      invariant Drained(delivered, rest, last) == Session(chunks[..i], limit)
    {
      if compacting {
        ReadFits(chunks, i, limit);
      }
      SessionStep(chunks, i, limit);
      var more;
      more, last := Poll(buf, chunks[i], head, body, limit, compacting);
      rest := buf.ToString();
      delivered := delivered + more;
      if last != Idle {
        SessionStops(chunks, i + 1, limit);
        return;
      }
    }
    assert chunks[..|chunks|] == chunks;
  }

  lemma ReadFits(chunks: seq<Bytes>, i: nat, limit: CopyLimit)
    requires ReadsFit(chunks, limit) && i < |chunks|
    ensures |Session(chunks[..i], limit).rest| + |chunks[i]| < TWO_32
  {
  }

  lemma NothingPending()
    ensures BufferStates.EMPTY.pending == []
  {
  }

  lemma SessionStarts(chunks: seq<Bytes>, limit: CopyLimit)
    ensures Session(chunks[..0], limit) == Drained([], [], Idle)
  {
  }

  lemma SessionStep(chunks: seq<Bytes>, i: nat, limit: CopyLimit)
    requires i < |chunks| && Session(chunks[..i], limit).last == Idle
    ensures var before := Session(chunks[..i], limit);
            var now := Drain(before.rest + chunks[i], limit);
            Session(chunks[..i + 1], limit) == now.(delivered := before.delivered + now.delivered)
  {
    hide Drain;
    assert chunks[..i + 1][..i] == chunks[..i];
  }

  /** Once the loop is stuck, the reads that never come do not change the outcome. */
  lemma {:induction false} SessionStops(chunks: seq<Bytes>, i: nat, limit: CopyLimit)
    requires i <= |chunks| && Session(chunks[..i], limit).last != Idle
    ensures Session(chunks, limit) == Session(chunks[..i], limit)
  {
    hide Drain;
    if i == |chunks| {
      assert chunks[..i] == chunks;
    } else {
      assert chunks[..|chunks| - 1][..i] == chunks[..i];
      SessionStops(chunks[..|chunks| - 1], i, limit);
    }
  }

  /** What was delivered, followed by draining what is left, is draining it all. */
  ghost predicate Continues(delivered: seq<Bytes>, pending: Bytes, all: Bytes, limit: CopyLimit) {
    var d := Drain(pending, limit);
    Drain(all, limit) == Drained(delivered + d.delivered, d.rest, d.last)
  }

  lemma CompactKeepsPending(s: BufferStates.State, least: nat, memory: bool)
    requires s.Valid()
    ensures |s.pending| < TWO_32 ==> BufferStates.Compact(s, least, memory).pending == s.pending
  {
  }
}
