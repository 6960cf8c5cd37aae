/** Cutting frames out of a byte stream: what one pass of the loop decides, what a run of
    passes delivers, and why the way the stream was cut into reads does not matter. */
module Deframing {
  import opened Options
  import opened Words
  import opened Wire
  import opened Messages
  import opened MessageProofs

  /** Head and body together must be counted by an `int`. */
  const MAX_BODY := MAX_LENGTH - HEAD_SIZE

  /** One pass over the readable bytes.
      `Idle`: the loop waits for more bytes.
      `Spin`: a head or body does not parse; the original tries the same bytes forever.
      `Undefined`: a length no `int` holds, a body larger than the caller's copy, or a group.
      `Deliver`: the callback gets `bodies` (none for an empty frame), `consumed` bytes are skipped. */
  datatype Pass = Idle | Spin | Undefined | Deliver(bodies: seq<Bytes>, consumed: nat)

  /** The size of the stack copy handed to the callback, if there is one. */
  type CopyLimit = Option<nat>

  function PassBody(s: Bytes, limit: CopyLimit): Pass {
    match ParseBody(s)
    case Accepted(m) =>
      if m.body.None? then Spin
      else if limit.Some? && |m.body.value| > limit.value then Undefined
      else Deliver([m.body.value], HEAD_SIZE + |SerializeBody(m)|)
    case Rejected => Spin
    case HasGroup => Undefined
  }

  /** `msgbody_len` is unsigned, so its sum with the head size wraps at 32 bits. */
  function PassFrame(buf: Bytes, n: uint32, limit: CopyLimit): Pass
    requires |buf| >= HEAD_SIZE
  {
    if |buf| < (HEAD_SIZE + n) % TWO_32 then Idle
    else if n == 0 then Deliver([], HEAD_SIZE)
    else if n > MAX_BODY then Undefined
    else PassBody(buf[HEAD_SIZE..HEAD_SIZE + n], limit)
  }

  function PassOnce(buf: Bytes, limit: CopyLimit): Pass {
    if |buf| < HEAD_SIZE then Idle
    else
      match ParseHead(buf[..HEAD_SIZE])
      case Accepted(h) => if HeadInitialized(h) then PassFrame(buf, h.msgbodyLen.value, limit) else Spin
      case Rejected => Spin
      case HasGroup => Undefined
  }

  /** On every input a pass skips at least a head and never beyond the readable bytes. */
  lemma PassStaysWithin(buf: Bytes, limit: CopyLimit)
    ensures PassOnce(buf, limit).Deliver? ==> HEAD_SIZE <= PassOnce(buf, limit).consumed <= |buf|
  {
    hide ParseHead, ParseBody, SerializeBody;
    if PassOnce(buf, limit).Deliver? {
      var n := ParseHead(buf[..HEAD_SIZE]).message.msgbodyLen.value;
      if n != 0 {
        BodySizeExactIff(buf[HEAD_SIZE..HEAD_SIZE + n]);
      }
    }
  }

  /** When a pass delivers, what, and when it waits: the head must be there and complete, and so
      must the body that it announces, unless that is empty. */
  lemma PassDeliversIff(buf: Bytes, limit: CopyLimit)
    requires |buf| >= 15 && ParseHead(buf[..15]).Accepted? && HeadInitialized(ParseHead(buf[..15]).message)
    ensures var n := ParseHead(buf[..15]).message.msgbodyLen.value;
            && (PassOnce(buf, limit) == Idle <==> |buf| < (15 + n) % 0x1_0000_0000)
            && (n == 0 ==> PassOnce(buf, limit) == Deliver([], 15))
            && (0 < n && 15 + n <= |buf| && 15 + n <= 0x7FFF_FFFF ==>
                  var m := ParseBody(buf[15..15 + n]);
                  if m.Accepted? && m.message.body.Some?
                     && (limit.Some? ==> |m.message.body.value| <= limit.value)
                  then PassOnce(buf, limit).Deliver? && PassOnce(buf, limit).bodies == [m.message.body.value]
                  else if m.Rejected? || (m.Accepted? && m.message.body.None?) then PassOnce(buf, limit) == Spin
                  else PassOnce(buf, limit) == Undefined)
            && (15 + n > 0x7FFF_FFFF ==> PassOnce(buf, limit).Idle? || PassOnce(buf, limit).Undefined?)
  {
    hide ParseHead, ParseBody, SerializeBody;
  }

  /** A head that is rejected or incomplete stops the loop for good. */
  lemma BadHeadSpins(buf: Bytes, limit: CopyLimit)
    requires |buf| >= 15
    requires ParseHead(buf[..15]).Rejected?
             || (ParseHead(buf[..15]).Accepted? && !HeadInitialized(ParseHead(buf[..15]).message))
    ensures PassOnce(buf, limit) == Spin
  {
    hide ParseHead;
  }

  /** A pass that delivers skips exactly the frame that the head announces if and only if the
      body repeats no field and encodes none longer than needed. */
  lemma SkipsFrameIff(buf: Bytes, limit: CopyLimit)
    requires PassOnce(buf, limit).Deliver?
    ensures var n := ParseHead(buf[..HEAD_SIZE]).message.msgbodyLen.value;
            && HEAD_SIZE + n <= |buf|
            && (PassOnce(buf, limit).consumed == HEAD_SIZE + n
                <==> Plain(EMPTY_BODY, buf[HEAD_SIZE..HEAD_SIZE + n]))
  {
    hide ParseHead, ParseBody, SerializeBody, Plain;
    var n := ParseHead(buf[..HEAD_SIZE]).message.msgbodyLen.value;
    if n == 0 {
      NothingIsPlain();
      assert buf[HEAD_SIZE..HEAD_SIZE + n] == [];
    } else {
      BodySizeExactIff(buf[HEAD_SIZE..HEAD_SIZE + n]);
    }
  }

  lemma NothingIsPlain()
    ensures Plain(EMPTY_BODY, [])
  {
  }

  datatype Outcome = Drained(delivered: seq<Bytes>, rest: Bytes, last: Pass)

  /** All passes the inner loop makes before it waits, spins or leaves the defined. */
  function Drain(buf: Bytes, limit: CopyLimit): Outcome
    decreases |buf|
  {
    match PassOnce(buf, limit)
    case Deliver(bodies, consumed) =>
      PassStaysWithin(buf, limit);
      var later := Drain(buf[consumed..], limit);
      later.(delivered := bodies + later.delivered)
    case last => Drained([], buf, last)
  }

  /** The outer loop over a new buffer: each read is appended to what the last one left, then
      drained. Once a drain ends otherwise than by waiting, nothing more is read. */
  function Session(chunks: seq<Bytes>, limit: CopyLimit): Outcome {
    if |chunks| == 0 then Drained([], [], Idle)
    else
      var before := Session(chunks[..|chunks| - 1], limit);
      if before.last != Idle then before
      else
        var now := Drain(before.rest + chunks[|chunks| - 1], limit);
        now.(delivered := before.delivered + now.delivered)
  }

  function Flatten(parts: seq<Bytes>): Bytes {
    if |parts| == 0 then [] else Flatten(parts[..|parts| - 1]) + parts[|parts| - 1]
  }

  // ----- the cut into reads does not matter -----

  /** More bytes never change what a pass has decided. */
  lemma PassIsStable(x: Bytes, y: Bytes, limit: CopyLimit)
    requires PassOnce(x, limit) != Idle
    ensures PassOnce(x + y, limit) == PassOnce(x, limit)
  {
    hide ParseHead, PassBody;
    assert (x + y)[..HEAD_SIZE] == x[..HEAD_SIZE];
    if ParseHead(x[..HEAD_SIZE]).Accepted? && HeadInitialized(ParseHead(x[..HEAD_SIZE]).message) {
      var n := ParseHead(x[..HEAD_SIZE]).message.msgbodyLen.value;
      if 0 < n <= MAX_BODY {
        assert (x + y)[HEAD_SIZE..HEAD_SIZE + n] == x[HEAD_SIZE..HEAD_SIZE + n];
      }
    }
  }

  lemma DrainStep(x: Bytes, limit: CopyLimit)
    ensures PassOnce(x, limit).Deliver? ==>
              var bodies, consumed := PassOnce(x, limit).bodies, PassOnce(x, limit).consumed;
              && 0 < consumed <= |x|
              && Drain(x, limit) == Drained(bodies + Drain(x[consumed..], limit).delivered,
                                            Drain(x[consumed..], limit).rest, Drain(x[consumed..], limit).last)
    ensures !PassOnce(x, limit).Deliver? ==> Drain(x, limit) == Drained([], x, PassOnce(x, limit))
  {
    hide PassOnce;
    PassStaysWithin(x, limit);
  }

  /** Draining in two portions: if the first ends waiting, the second goes on where it stopped,
      otherwise it is not looked at. */
  lemma {:induction false} DrainConcat(x: Bytes, y: Bytes, limit: CopyLimit)
    ensures var d := Drain(x, limit);
            if d.last == Idle then
              var e := Drain(d.rest + y, limit);
              Drain(x + y, limit) == e.(delivered := d.delivered + e.delivered)
            else Drain(x + y, limit) == d.(rest := d.rest + y)
    decreases |x|
  {
    hide PassOnce, Drain;
    DrainStep(x, limit);
    DrainStep(x + y, limit);
    match PassOnce(x, limit)
    case Idle =>
      var e := Drain(x + y, limit);
      assert [] + e.delivered == e.delivered;
    case Deliver(bodies, consumed) =>
      PassIsStable(x, y, limit);
      assert (x + y)[consumed..] == x[consumed..] + y;
      DrainConcat(x[consumed..], y, limit);
      var d, e := Drain(x[consumed..], limit), Drain(Drain(x, limit).rest + y, limit);
      assert bodies + (d.delivered + e.delivered) == bodies + d.delivered + e.delivered;
    case _ =>
      PassIsStable(x, y, limit);
  }

  /** For every stream and every way to cut it into reads, the session delivers what one drain
      of the whole stream does and ends as that does; what it leaves in the buffer is the same
      too, except for what it did not read any more because the loop got stuck. */
  lemma {:induction false} CutsDoNotMatter(chunks: seq<Bytes>, limit: CopyLimit)
    ensures var s, d := Session(chunks, limit), Drain(Flatten(chunks), limit);
            && s.delivered == d.delivered && s.last == d.last
            && s.rest <= d.rest && (s.last == Idle ==> s.rest == d.rest)
  {
    hide PassOnce, Drain;
    if |chunks| == 0 {
      DrainStep([], limit);
      NothingWaits(limit);
    } else {
      var before, chunk := chunks[..|chunks| - 1], chunks[|chunks| - 1];
      CutsDoNotMatter(before, limit);
      DrainConcat(Flatten(before), chunk, limit);
    }
  }

  lemma NothingWaits(limit: CopyLimit)
    ensures PassOnce([], limit) == Idle
  {
  }

  /** Each delivery costs at least a head: the passes of a drain are bounded. */
  lemma {:induction false} DrainIsBounded(x: Bytes, limit: CopyLimit)
    ensures HEAD_SIZE * |Drain(x, limit).delivered| + |Drain(x, limit).rest| <= |x|
    ensures |Drain(x, limit).rest| <= |x|
    decreases |x|
  {
    BodiesAtMostOne(x, limit);
    hide PassOnce;
    match PassOnce(x, limit)
    case Deliver(bodies, consumed) =>
      PassStaysWithin(x, limit);
      DrainIsBounded(x[consumed..], limit);
    case _ =>
  }

  lemma BodiesAtMostOne(x: Bytes, limit: CopyLimit)
    ensures PassOnce(x, limit).Deliver? ==> |PassOnce(x, limit).bodies| <= 1
  {
    hide ParseHead, ParseBody;
  }

  // ----- frames -----

  /** What a peer sends: a head and, unless it is a heartbeat, some encoding of a body. */
  datatype Frame = Frame(cmd: uint32, sequence: uint32, body: Option<Body>, bytes: Bytes)

  function FrameHead(f: Frame): Head {
    Head(Some(f.cmd), Some(|f.bytes| % TWO_32), Some(f.sequence), [])
  }

  function FrameBytes(f: Frame): Bytes {
    SerializeHead(FrameHead(f)) + f.bytes
  }

  /** The bytes encode the body, in any order of its fields, unknown ones included, but each
      once and in its shortest form. */
  ghost predicate Sendable(f: Frame, limit: CopyLimit) {
    && HEAD_SIZE + |f.bytes| <= 0x7FFF_FFFF
    && match f.body
       case None => f.bytes == []
       case Some(b) =>
         && f.bytes != [] && ParseBody(f.bytes) == Accepted(b) && Plain(EMPTY_BODY, f.bytes)
         && BodyInitialized(b) && (limit.Some? ==> |b.body.value| <= limit.value)
  }

  /** The generated serializer makes sendable frames. */
  lemma SerializedIsSendable(cmd: uint32, sequence: uint32, b: Body, limit: CopyLimit)
    requires BodyOk(b) && BodyInitialized(b) && |SerializeBody(b)| <= MAX_BODY
    requires limit.Some? ==> |b.body.value| <= limit.value
    ensures Sendable(Frame(cmd, sequence, Some(b), SerializeBody(b)), limit)
  {
    hide BodyOk, ParseBody, SerializeBody, Plain;
    BodyIsNotEmpty(b);
    BodyRoundTrip(b);
    BodySizeExactIff(SerializeBody(b));
  }

  function Payloads(f: Frame): seq<Bytes> {
    if f.body.Some? && f.body.value.body.Some? then [f.body.value.body.value] else []
  }

  lemma HeadParses(f: Frame, s: Bytes)
    requires |s| >= HEAD_SIZE && s[..HEAD_SIZE] == SerializeHead(FrameHead(f))
    ensures ParseHead(s[..HEAD_SIZE]) == Accepted(FrameHead(f))
  {
    HeadRoundTrip(FrameHead(f));
  }

  lemma FrameSize(f: Frame)
    ensures |SerializeHead(FrameHead(f))| == HEAD_SIZE
    ensures |FrameBytes(f)| == HEAD_SIZE + |f.bytes|
  {
    CompleteHeadIsFifteenBytes(FrameHead(f), []);
  }

  lemma BodyIsNotEmpty(b: Body)
    requires BodyInitialized(b)
    ensures |SerializeBody(b)| > 0
  {
    DataFieldLength(TAG_BODY, b.body);
    hide EncodeAll, DataField, NumberField;
  }

  /** A pass over a whole frame, whatever follows it, delivers its body and skips it exactly. */
  lemma PassTakesFrame(f: Frame, tail: Bytes, limit: CopyLimit)
    requires Sendable(f, limit)
    ensures PassOnce(FrameBytes(f) + tail, limit) == Deliver(Payloads(f), |FrameBytes(f)|)
  {
    hide ParseHead, ParseBody, SerializeBody, SerializeHead, Plain;
    var s, n := FrameBytes(f) + tail, |f.bytes|;
    FrameSize(f);
    HeadParses(f, s);
    assert s[HEAD_SIZE..HEAD_SIZE + n] == f.bytes;
    if f.body.Some? {
      BodySizeExactIff(f.bytes);
    }
  }

  /** A pass over a proper prefix of a frame waits. */
  lemma PassWaits(f: Frame, k: nat, limit: CopyLimit)
    requires Sendable(f, limit) && k < |FrameBytes(f)|
    ensures PassOnce(FrameBytes(f)[..k], limit) == Idle
  {
    hide ParseHead, ParseBody, SerializeHead, Plain;
    FrameSize(f);
    if k >= HEAD_SIZE {
      HeadParses(f, FrameBytes(f)[..k]);
    }
  }

  function Stream(frames: seq<Frame>): Bytes {
    if |frames| == 0 then [] else FrameBytes(frames[0]) + Stream(frames[1..])
  }

  /** What the frames carry, in order: the `body` field of every frame that has a body. */
  function Bodies(frames: seq<Frame>): seq<Bytes> {
    if |frames| == 0 then [] else Payloads(frames[0]) + Bodies(frames[1..])
  }

  lemma {:induction false} DrainTakesFrames(frames: seq<Frame>, tail: Bytes, limit: CopyLimit)
    requires forall i | 0 <= i < |frames| :: Sendable(frames[i], limit)
    requires PassOnce(tail, limit) == Idle
    ensures Drain(Stream(frames) + tail, limit) == Drained(Bodies(frames), tail, Idle)
    decreases |frames|
  {
    hide PassOnce, FrameBytes, Sendable, Drain;
    DrainStep(Stream(frames) + tail, limit);
    if |frames| == 0 {
      assert Stream(frames) + tail == tail;
    } else {
      var rest := Stream(frames[1..]) + tail;
      assert Sendable(frames[0], limit);
      assert Stream(frames) + tail == FrameBytes(frames[0]) + rest;
      PassTakesFrame(frames[0], rest, limit);
      assert (FrameBytes(frames[0]) + rest)[|FrameBytes(frames[0])|..] == rest;
      DrainTakesFrames(frames[1..], tail, limit);
    }
  }

  /** De-framing undoes framing: whatever frames were sent, however their bodies were encoded
      (see `Sendable`), followed by any proper prefix of a further one, and however the bytes
      were cut into reads, exactly the bodies of the frames that have one are delivered, in
      order, once each, and exactly the prefix is left. */
  lemma DeframingUndoesFraming(frames: seq<Frame>, next: Frame, k: nat, chunks: seq<Bytes>, limit: CopyLimit)
    requires forall i | 0 <= i < |frames| :: Sendable(frames[i], limit)
    requires Sendable(next, limit) && k < |FrameBytes(next)|
    requires Flatten(chunks) == Stream(frames) + FrameBytes(next)[..k]
    ensures Session(chunks, limit) == Drained(Bodies(frames), FrameBytes(next)[..k], Idle)
  {
    hide Drain, Session, Stream, FrameBytes, Bodies, ParseHead;
    var tail := FrameBytes(next)[..k];
    PassWaits(next, k, limit);
    DrainTakesFrames(frames, tail, limit);
    CutsDoNotMatter(chunks, limit);
  }

  // ----- when the recomputed size is not the frame's -----

  lemma OverLength(tag: uint32, a: Option<Bytes>, b: Option<Bytes>)
    ensures var x, y := EncodeAll(DataField(tag, a)), EncodeAll(DataField(tag, b));
            var z := EncodeAll(DataField(tag, Over(a, b)));
            |z| <= |x| + |y| && (a.Some? && b.Some? ==> |z| < |x| + |y|)
  {
    DataFieldLength(tag, a);
    DataFieldLength(tag, b);
  }

  lemma OverNumberLength(tag: uint32, a: Option<uint32>, b: Option<uint32>)
    ensures |EncodeAll(NumberField(tag, Over(a, b)))|
            <= |EncodeAll(NumberField(tag, a))| + |EncodeAll(NumberField(tag, b))|
  {
  }

  /** A frame may legally carry a body in two parts that repeat a field. Such a frame is
      accepted, but the loop skips fewer bytes than the frame has, and so loses its place. */
  lemma RepeatedFieldsLoseThePlace(a: Body, b: Body, cmd: uint32, sequence: uint32, tail: Bytes)
    requires BodyOk(a) && BodyOk(b) && BodyInitialized(a) && BodyInitialized(b)
    requires |SerializeBody(a) + SerializeBody(b)| <= MAX_BODY
    ensures var bytes := SerializeBody(a) + SerializeBody(b);
            var head := SerializeHead(Head(Some(cmd), Some(|bytes|), Some(sequence), []));
            var pass := PassOnce(head + bytes + tail, None);
            pass.Deliver? && pass.bodies == [b.body.value] && pass.consumed < |head + bytes|
  {
    hide ParseHead, ParseBody, SerializeBody, SerializeHead, BodyOk, HeadOk;
    var bytes := SerializeBody(a) + SerializeBody(b);
    var h := Head(Some(cmd), Some(|bytes|), Some(sequence), []);
    var s := SerializeHead(h) + bytes + tail;
    CompleteHeadIsFifteenBytes(h, []);
    NoUnknownOk(h);
    HeadRoundTrip(h);
    SerializedConcatIsMerge(a, b);
    BodyIsNotEmpty(a);
    MergedIsShorter(a, b);
    assert s[..HEAD_SIZE] == SerializeHead(h);
    assert s[HEAD_SIZE..HEAD_SIZE + |bytes|] == bytes;
  }

  lemma NoUnknownOk(h: Head)
    requires h.unknown == []
    ensures HeadOk(h)
  {
  }

  lemma MergedIsShorter(a: Body, b: Body)
    requires BodyInitialized(a) && BodyInitialized(b)
    ensures |SerializeBody(MergeBody(a, b))| < |SerializeBody(a)| + |SerializeBody(b)|
  {
    OverLength(TAG_BODY, a.body, b.body);
    OverNumberLength(TAG_SESSION_ID, a.sessionId, b.sessionId);
    OverLength(TAG_SESSION, a.session, b.session);
    OverLength(TAG_ADDITIONAL, a.additional, b.additional);
    EncodeAllConcat(a.unknown, b.unknown);
    hide EncodeAll, DataField, NumberField;
  }
}
