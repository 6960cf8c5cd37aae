/** Message head and body as values: which fields are present and what they hold. */
module Messages {
  import opened Options
  import opened Words
  import opened Wire

  /** An absent field is a cleared has-bit. */
  datatype Head = Head(cmd: Option<uint32>, msgbodyLen: Option<uint32>, sequence: Option<uint32>,
                       unknown: seq<Record>)

  datatype Body = Body(body: Option<Bytes>, sessionId: Option<uint32>, session: Option<Bytes>,
                       additional: Option<Bytes>, unknown: seq<Record>)

  const EMPTY_HEAD := Head(None, None, None, [])
  const EMPTY_BODY := Body(None, None, None, None, [])

  const TAG_CMD := 13
  const TAG_MSGBODY_LEN := 21
  const TAG_SEQ := 29
  const TAG_BODY := 10
  const TAG_SESSION_ID := 16
  const TAG_SESSION := 26
  const TAG_ADDITIONAL := 34

  const HEAD_SIZE := 15

  // ----- one record into a message: the last one wins -----

  function HeadApply(h: Head, r: Record): Head {
    if r.tag == TAG_CMD && r.payload.Four? then h.(cmd := Some(r.payload.v))
    else if r.tag == TAG_MSGBODY_LEN && r.payload.Four? then h.(msgbodyLen := Some(r.payload.v))
    else if r.tag == TAG_SEQ && r.payload.Four? then h.(sequence := Some(r.payload.v))
    else h.(unknown := h.unknown + [r])
  }

  function BodyApply(b: Body, r: Record): Body {
    if r.tag == TAG_BODY && r.payload.Data? then b.(body := Some(r.payload.bytes))
    else if r.tag == TAG_SESSION_ID && r.payload.Number? then b.(sessionId := Some(r.payload.n % TWO_32))
    else if r.tag == TAG_SESSION && r.payload.Data? then b.(session := Some(r.payload.bytes))
    else if r.tag == TAG_ADDITIONAL && r.payload.Data? then b.(additional := Some(r.payload.bytes))
    else b.(unknown := b.unknown + [r])
  }

  // ----- merging -----

  function Over<T>(a: Option<T>, b: Option<T>): Option<T> {
    if b.Some? then b else a
  }

  function MergeHead(a: Head, b: Head): Head {
    Head(Over(a.cmd, b.cmd), Over(a.msgbodyLen, b.msgbodyLen), Over(a.sequence, b.sequence), a.unknown + b.unknown)
  }

  function MergeBody(a: Body, b: Body): Body {
    Body(Over(a.body, b.body), Over(a.sessionId, b.sessionId), Over(a.session, b.session),
         Over(a.additional, b.additional), a.unknown + b.unknown)
  }

  // ----- serialization, in field order, unknown fields last -----

  function FixedField(tag: uint32, v: Option<uint32>): seq<Record> {
    if v.Some? then [Record(tag, Four(v.value))] else []
  }

  function DataField(tag: uint32, v: Option<Bytes>): seq<Record> {
    if v.Some? then [Record(tag, Data(v.value))] else []
  }

  function NumberField(tag: uint32, v: Option<uint32>): seq<Record> {
    if v.Some? then [Record(tag, Number(v.value))] else []
  }

  function SerializeHead(h: Head): Bytes {
    EncodeAll(FixedField(TAG_CMD, h.cmd)) + EncodeAll(FixedField(TAG_MSGBODY_LEN, h.msgbodyLen))
    + EncodeAll(FixedField(TAG_SEQ, h.sequence)) + EncodeAll(h.unknown)
  }

  function SerializeBody(b: Body): Bytes {
    EncodeAll(DataField(TAG_BODY, b.body)) + EncodeAll(NumberField(TAG_SESSION_ID, b.sessionId))
    + EncodeAll(DataField(TAG_SESSION, b.session)) + EncodeAll(DataField(TAG_ADDITIONAL, b.additional))
    + EncodeAll(b.unknown)
  }

  // ----- what every message object satisfies -----

  predicate Short(v: Option<Bytes>) {
    v.Some? ==> |v.value| <= MAX_LENGTH
  }

  ghost predicate HeadOk(h: Head) {
    forall i | 0 <= i < |h.unknown| ::
      WellFormed(h.unknown[i]) && h.unknown[i].tag != TAG_CMD && h.unknown[i].tag != TAG_MSGBODY_LEN
      && h.unknown[i].tag != TAG_SEQ
  }

  ghost predicate BodyOk(b: Body) {
    && Short(b.body) && Short(b.session) && Short(b.additional)
    && forall i | 0 <= i < |b.unknown| :: BodyUnknown(b.unknown[i])
  }

  ghost predicate BodyUnknown(r: Record) {
    WellFormed(r) && r.tag != TAG_BODY && r.tag != TAG_SESSION_ID && r.tag != TAG_SESSION && r.tag != TAG_ADDITIONAL
  }

  predicate HeadInitialized(h: Head) {
    h.cmd.Some? && h.msgbodyLen.Some? && h.sequence.Some?
  }

  predicate BodyInitialized(b: Body) {
    b.body.Some?
  }

  function ParseHead(s: Bytes): Parsed<Head> {
    Absorb(HeadApply, EMPTY_HEAD, s)
  }

  function ParseBody(s: Bytes): Parsed<Body> {
    Absorb(BodyApply, EMPTY_BODY, s)
  }
}

/** Round trips, merging and sizes of both messages. */
module MessageProofs {
  import opened Options
  import opened Words
  import opened Wire
  import opened Messages

  // ----- parsing any two accepted strings joined is merging what they hold -----

  lemma MergeThenApplyBody(a: Body, b: Body, r: Record)
    ensures MergeBody(a, BodyApply(b, r)) == BodyApply(MergeBody(a, b), r)
  {
    assert a.unknown + (b.unknown + [r]) == a.unknown + b.unknown + [r];
  }

  lemma MergeThenApplyHead(a: Head, b: Head, r: Record)
    ensures MergeHead(a, HeadApply(b, r)) == HeadApply(MergeHead(a, b), r)
  {
    assert a.unknown + (b.unknown + [r]) == a.unknown + b.unknown + [r];
  }

  lemma MergeEmpty(a: Body, h: Head)
    ensures MergeBody(a, EMPTY_BODY) == a && MergeHead(h, EMPTY_HEAD) == h
  {
  }

  /** For every two byte strings the parser accepts, parsing the concatenation gives what
      `MergeFrom` gives, whatever the order, repetition or encoding of the fields. */
  lemma BodyConcatIsMerge(x: Bytes, y: Bytes)
    requires ParseBody(x).Accepted? && ParseBody(y).Accepted?
    ensures ParseBody(x + y) == Accepted(MergeBody(ParseBody(x).message, ParseBody(y).message))
  {
    hide BodyApply, MergeBody, ReadRecord;
    var a := ParseBody(x).message;
    AbsorbConcat(BodyApply, EMPTY_BODY, x, y);
    forall b, r ensures MergeBody(a, BodyApply(b, r)) == BodyApply(MergeBody(a, b), r) {
      MergeThenApplyBody(a, b, r);
    }
    MergeEmpty(a, EMPTY_HEAD);
    AbsorbMerges(BodyApply, MergeBody, a, EMPTY_BODY, y);
  }

  lemma HeadConcatIsMerge(x: Bytes, y: Bytes)
    requires ParseHead(x).Accepted? && ParseHead(y).Accepted?
    ensures ParseHead(x + y) == Accepted(MergeHead(ParseHead(x).message, ParseHead(y).message))
  {
    hide HeadApply, MergeHead, ReadRecord;
    var a := ParseHead(x).message;
    AbsorbConcat(HeadApply, EMPTY_HEAD, x, y);
    forall b, r ensures MergeHead(a, HeadApply(b, r)) == HeadApply(MergeHead(a, b), r) {
      MergeThenApplyHead(a, b, r);
    }
    MergeEmpty(EMPTY_BODY, a);
    AbsorbMerges(HeadApply, MergeHead, a, EMPTY_HEAD, y);
  }

  // ----- round trips -----

  lemma {:induction false} EncodeAllConcat(rs: seq<Record>, ts: seq<Record>)
    ensures EncodeAll(rs + ts) == EncodeAll(rs) + EncodeAll(ts)
  {
    if |rs| == 0 {
      assert rs + ts == ts;
    } else {
      assert (rs + ts)[1..] == rs[1..] + ts;
      EncodeAllConcat(rs[1..], ts);
    }
  }

  lemma {:induction false} FoldConcat<M>(apply: (M, Record) -> M, m: M, rs: seq<Record>, ts: seq<Record>)
    ensures FoldRecords(apply, m, rs + ts) == FoldRecords(apply, FoldRecords(apply, m, rs), ts)
  {
    if |rs| == 0 {
      assert rs + ts == ts;
    } else {
      assert (rs + ts)[1..] == rs[1..] + ts;
      FoldConcat(apply, apply(m, rs[0]), rs[1..], ts);
    }
  }

  lemma {:induction false} FoldUnknownBody(m: Body, rs: seq<Record>)
    requires forall i | 0 <= i < |rs| :: BodyUnknown(rs[i])
    ensures FoldRecords(BodyApply, m, rs) == m.(unknown := m.unknown + rs)
    decreases |rs|
  {
    if |rs| == 0 {
      assert m.unknown + rs == m.unknown;
    } else {
      assert BodyUnknown(rs[0]);
      FoldUnknownBody(BodyApply(m, rs[0]), rs[1..]);
      assert m.unknown + [rs[0]] + rs[1..] == m.unknown + rs;
    }
  }

  lemma {:induction false} FoldUnknownHead(m: Head, rs: seq<Record>)
    requires HeadOk(m.(unknown := rs))
    ensures FoldRecords(HeadApply, m, rs) == m.(unknown := m.unknown + rs)
    decreases |rs|
  {
    if |rs| == 0 {
      assert m.unknown + rs == m.unknown;
    } else {
      FoldUnknownHead(HeadApply(m, rs[0]), rs[1..]);
      assert m.unknown + [rs[0]] + rs[1..] == m.unknown + rs;
    }
  }

  function HeadRecords(h: Head): seq<Record> {
    FixedField(TAG_CMD, h.cmd) + FixedField(TAG_MSGBODY_LEN, h.msgbodyLen) + FixedField(TAG_SEQ, h.sequence) + h.unknown
  }

  function BodyRecords(b: Body): seq<Record> {
    DataField(TAG_BODY, b.body) + NumberField(TAG_SESSION_ID, b.sessionId) + DataField(TAG_SESSION, b.session)
    + DataField(TAG_ADDITIONAL, b.additional) + b.unknown
  }

  lemma SerializeHeadIs(h: Head)
    ensures SerializeHead(h) == EncodeAll(HeadRecords(h))
  {
    hide EncodeAll, FixedField;
    var p, q := FixedField(TAG_CMD, h.cmd), FixedField(TAG_MSGBODY_LEN, h.msgbodyLen);
    var r := FixedField(TAG_SEQ, h.sequence);
    EncodeAllConcat(p, q);
    EncodeAllConcat(p + q, r);
    EncodeAllConcat(p + q + r, h.unknown);
  }

  lemma SerializeBodyIs(b: Body)
    ensures SerializeBody(b) == EncodeAll(BodyRecords(b))
  {
    hide EncodeAll, DataField, NumberField;
    var p, q := DataField(TAG_BODY, b.body), NumberField(TAG_SESSION_ID, b.sessionId);
    var r, t := DataField(TAG_SESSION, b.session), DataField(TAG_ADDITIONAL, b.additional);
    EncodeAllConcat(p, q);
    EncodeAllConcat(p + q, r);
    EncodeAllConcat(p + q + r, t);
    EncodeAllConcat(p + q + r + t, b.unknown);
  }

  lemma FoldOne<M>(apply: (M, Record) -> M, m: M, r: Record)
    ensures FoldRecords(apply, m, [r]) == apply(m, r) && FoldRecords(apply, m, []) == m
  {
    assert FoldRecords(apply, apply(m, r), [r][1..]) == apply(m, r);
  }

  lemma FoldBodyFields(m: Body, d: Option<Bytes>, n: Option<uint32>)
    ensures FoldRecords(BodyApply, m, DataField(TAG_BODY, d)) == m.(body := Over(m.body, d))
    ensures FoldRecords(BodyApply, m, NumberField(TAG_SESSION_ID, n)) == m.(sessionId := Over(m.sessionId, n))
    ensures FoldRecords(BodyApply, m, DataField(TAG_SESSION, d)) == m.(session := Over(m.session, d))
    ensures FoldRecords(BodyApply, m, DataField(TAG_ADDITIONAL, d)) == m.(additional := Over(m.additional, d))
  {
    FoldOne(BodyApply, m, Record(1, Four(0)));
    if d.Some? {
      FoldOne(BodyApply, m, Record(TAG_BODY, Data(d.value)));
      FoldOne(BodyApply, m, Record(TAG_SESSION, Data(d.value)));
      FoldOne(BodyApply, m, Record(TAG_ADDITIONAL, Data(d.value)));
    }
    if n.Some? {
      FoldOne(BodyApply, m, Record(TAG_SESSION_ID, Number(n.value)));
    }
  }

  lemma FoldBodyRecords(b: Body)
    requires BodyOk(b)
    ensures FoldRecords(BodyApply, EMPTY_BODY, BodyRecords(b)) == b
  {
    hide FoldRecords, DataField, NumberField, BodyApply;
    var p, q := DataField(TAG_BODY, b.body), NumberField(TAG_SESSION_ID, b.sessionId);
    var r, t := DataField(TAG_SESSION, b.session), DataField(TAG_ADDITIONAL, b.additional);
    FoldConcat(BodyApply, EMPTY_BODY, p + q + r + t, b.unknown);
    FoldConcat(BodyApply, EMPTY_BODY, p + q + r, t);
    FoldConcat(BodyApply, EMPTY_BODY, p + q, r);
    FoldConcat(BodyApply, EMPTY_BODY, p, q);
    FoldBodyFields(EMPTY_BODY, b.body, None);
    var b1 := EMPTY_BODY.(body := b.body);
    FoldBodyFields(b1, None, b.sessionId);
    var b2 := b1.(sessionId := b.sessionId);
    FoldBodyFields(b2, b.session, None);
    var b3 := b2.(session := b.session);
    FoldBodyFields(b3, b.additional, None);
    var b4 := b3.(additional := b.additional);
    FoldUnknownBody(b4, b.unknown);
    assert b4.unknown + b.unknown == b.unknown;
  }

  lemma FieldsWellFormed(d: Option<Bytes>, n: Option<uint32>)
    requires Short(d)
    ensures forall r | r in DataField(TAG_BODY, d) + DataField(TAG_SESSION, d) + DataField(TAG_ADDITIONAL, d)
                            + NumberField(TAG_SESSION_ID, n) + FixedField(TAG_CMD, n)
                            + FixedField(TAG_MSGBODY_LEN, n) + FixedField(TAG_SEQ, n) :: WellFormed(r)
  {
  }

  lemma BodyRecordsWellFormed(b: Body)
    requires BodyOk(b)
    ensures forall i | 0 <= i < |BodyRecords(b)| :: WellFormed(BodyRecords(b)[i])
  {
    var rs := BodyRecords(b);
    FieldsWellFormed(b.body, b.sessionId);
    FieldsWellFormed(b.session, None);
    FieldsWellFormed(b.additional, None);
    forall i | 0 <= i < |rs| ensures WellFormed(rs[i]) {
      assert rs[i] in rs;
      assert rs[i] in b.unknown ==> BodyUnknown(rs[i]);
    }
  }

  /** Parsing what was serialized gives the message back: same values, same presence. */
  lemma BodyRoundTrip(b: Body)
    requires BodyOk(b)
    ensures ParseBody(SerializeBody(b)) == Accepted(b)
  {
    hide BodyApply, BodyOk, BodyRecords, SerializeBody, EncodeAll, FoldRecords, ReadRecord, WellFormed;
    var rs := BodyRecords(b);
    SerializeBodyIs(b);
    BodyRecordsWellFormed(b);
    FoldBodyRecords(b);
    AbsorbEncoded(BodyApply, EMPTY_BODY, rs, []);
    assert EncodeAll(rs) + [] == EncodeAll(rs);
    EmptyEnds();
  }

  lemma FoldHeadField(m: Head, rs: seq<Record>)
    requires |rs| <= 1
    ensures FoldRecords(HeadApply, m, rs) == if |rs| == 1 then HeadApply(m, rs[0]) else m
  {
    if |rs| == 1 {
      assert rs == [rs[0]];
      FoldOne(HeadApply, m, rs[0]);
    }
  }

  lemma FoldHeadRecords(h: Head)
    requires HeadOk(h)
    ensures FoldRecords(HeadApply, EMPTY_HEAD, HeadRecords(h)) == h
  {
    var p, q := FixedField(TAG_CMD, h.cmd), FixedField(TAG_MSGBODY_LEN, h.msgbodyLen);
    var r := FixedField(TAG_SEQ, h.sequence);
    var h1 := EMPTY_HEAD.(cmd := h.cmd);
    var h2 := h1.(msgbodyLen := h.msgbodyLen);
    var h3 := h2.(sequence := h.sequence);
    FoldConcat(HeadApply, EMPTY_HEAD, p + q + r, h.unknown);
    FoldConcat(HeadApply, EMPTY_HEAD, p + q, r);
    FoldConcat(HeadApply, EMPTY_HEAD, p, q);
    hide FoldRecords;
    FoldHeadField(EMPTY_HEAD, p);
    FoldHeadField(h1, q);
    FoldHeadField(h2, r);
    FoldUnknownHead(h3, h.unknown);
    assert h3.unknown + h.unknown == h.unknown;
  }

  lemma HeadRoundTrip(h: Head)
    requires HeadOk(h)
    ensures ParseHead(SerializeHead(h)) == Accepted(h)
  {
    hide HeadApply, HeadOk, HeadRecords, SerializeHead, EncodeAll, FoldRecords, ReadRecord, WellFormed;
    var rs := HeadRecords(h);
    SerializeHeadIs(h);
    HeadRecordsWellFormed(h);
    FoldHeadRecords(h);
    AbsorbEncoded(HeadApply, EMPTY_HEAD, rs, []);
    assert EncodeAll(rs) + [] == EncodeAll(rs);
    EmptyEnds();
  }

  lemma HeadRecordsWellFormed(h: Head)
    requires HeadOk(h)
    ensures forall i | 0 <= i < |HeadRecords(h)| :: WellFormed(HeadRecords(h)[i])
  {
    var rs := HeadRecords(h);
    FieldsWellFormed(None, h.cmd);
    FieldsWellFormed(None, h.msgbodyLen);
    FieldsWellFormed(None, h.sequence);
    forall i | 0 <= i < |rs| ensures WellFormed(rs[i]) {
      assert rs[i] in rs;
    }
  }

  /** Parsing the serializations of two messages back to back is merging the messages. */
  lemma SerializedConcatIsMerge(a: Body, b: Body)
    requires BodyOk(a) && BodyOk(b)
    ensures ParseBody(SerializeBody(a) + SerializeBody(b)) == Accepted(MergeBody(a, b))
  {
    hide *;
    BodyRoundTrip(a);
    BodyRoundTrip(b);
    BodyConcatIsMerge(SerializeBody(a), SerializeBody(b));
  }

  // ----- sizes -----

  lemma {:induction false} VarintMonotone(m: nat, n: nat)
    requires m <= n
    ensures |Varint(m)| <= |Varint(n)|
  {
    if m >= 0x80 {
      VarintMonotone(m / 0x80, n / 0x80);
    }
  }

  lemma EncodeOne(r: Record)
    ensures EncodeAll([r]) == Encode(r) && EncodeAll([]) == []
  {
    hide Encode;
    assert EncodeAll([r][1..]) == [];
    assert Encode(r) + [] == Encode(r);
  }

  function BodyLength(b: Body): nat {
    |SerializeBody(b)|
  }

  function HeadLength(h: Head): nat {
    |SerializeHead(h)|
  }

  function DataLength(tag: uint32, v: Option<Bytes>): nat {
    if v.Some? then |Encode(Record(tag, Data(v.value)))| else 0
  }

  function NumberLength(tag: uint32, v: Option<uint32>): nat {
    if v.Some? then |Encode(Record(tag, Number(v.value)))| else 0
  }

  lemma DataFieldLength(tag: uint32, v: Option<Bytes>)
    ensures |EncodeAll(DataField(tag, v))| == DataLength(tag, v)
  {
    if v.Some? {
      EncodeOne(Record(tag, Data(v.value)));
    }
  }

  lemma NumberFieldLength(tag: uint32, v: Option<uint32>)
    ensures |EncodeAll(NumberField(tag, v))| == NumberLength(tag, v)
  {
    if v.Some? {
      EncodeOne(Record(tag, Number(v.value)));
    }
  }

  lemma NarrowedNumberLength(tag: uint32, n: uint64)
    ensures |Encode(Record(tag, Number(n % TWO_32)))| <= |Encode(Record(tag, Number(n)))|
  {
    VarintMonotone(n % TWO_32, n);
  }

  /** A session id is kept modulo 2^32; every other record is kept as it is. */
  function Kept(r: Record): Record {
    if r.tag == TAG_SESSION_ID && r.payload.Number? then r.(payload := Number(r.payload.n % TWO_32)) else r
  }

  /** The record fills a field that the message has already. */
  predicate Repeats(b: Body, r: Record) {
    || (r.tag == TAG_BODY && r.payload.Data? && b.body.Some?)
    || (r.tag == TAG_SESSION_ID && r.payload.Number? && b.sessionId.Some?)
    || (r.tag == TAG_SESSION && r.payload.Data? && b.session.Some?)
    || (r.tag == TAG_ADDITIONAL && r.payload.Data? && b.additional.Some?)
  }

  /** From `b` on, no field is repeated and every record has the length of its shortest form. */
  predicate Plain(b: Body, s: Bytes)
    decreases |s|
  {
    match ReadRecord(s)
    case Next(r, used) => !Repeats(b, r) && used == |Encode(Kept(r))| && Plain(BodyApply(b, r), s[used..])
    case _ => true
  }

  lemma BodyLengthIs(b: Body)
    ensures BodyLength(b) == DataLength(TAG_BODY, b.body) + NumberLength(TAG_SESSION_ID, b.sessionId)
                             + DataLength(TAG_SESSION, b.session) + DataLength(TAG_ADDITIONAL, b.additional)
                             + |EncodeAll(b.unknown)|
  {
    hide EncodeAll, Encode, DataField, NumberField;
    DataFieldLength(TAG_BODY, b.body);
    DataFieldLength(TAG_SESSION, b.session);
    DataFieldLength(TAG_ADDITIONAL, b.additional);
    NumberFieldLength(TAG_SESSION_ID, b.sessionId);
  }

  lemma KeptIsShorter(r: Record)
    ensures |Encode(Kept(r))| <= |Encode(r)|
  {
    if r.payload.Number? {
      NarrowedNumberLength(r.tag, r.payload.n);
    }
    hide Encode;
  }

  lemma ApplyLengthBody(b: Body, r: Record)
    ensures BodyLength(BodyApply(b, r)) <= BodyLength(b) + |Encode(Kept(r))|
    ensures BodyLength(BodyApply(b, r)) == BodyLength(b) + |Encode(Kept(r))| <==> !Repeats(b, r)
  {
    hide EncodeAll, Encode, BodyLength;
    BodyLengthIs(b);
    BodyLengthIs(BodyApply(b, r));
    EncodeOne(r);
    EncodeAllConcat(b.unknown, [r]);
  }

  lemma ApplyLengthHead(h: Head, r: Record)
    ensures HeadLength(HeadApply(h, r)) <= HeadLength(h) + |Encode(r)|
  {
    EncodeOne(r);
    EncodeAllConcat(h.unknown, [r]);
    hide EncodeAll, Encode;
  }

  lemma {:induction false} AbsorbedLength(b: Body, s: Bytes)
    requires Absorb(BodyApply, b, s).Accepted?
    ensures BodyLength(Absorb(BodyApply, b, s).message) <= BodyLength(b) + |s|
    ensures BodyLength(Absorb(BodyApply, b, s).message) == BodyLength(b) + |s| <==> Plain(b, s)
    decreases |s|
  {
    hide ReadRecord, Encode, BodyApply, BodyLength, Repeats, Kept;
    NonEmptyContinues(s);
    match ReadRecord(s)
    case Next(r, used) =>
      RecordMinimal(s);
      ApplyLengthBody(b, r);
      KeptIsShorter(r);
      AbsorbedLength(BodyApply(b, r), s[used..]);
    case _ =>
  }

  /** For every accepted input, the parsed body never serializes to more bytes than it was
      parsed from, and to as many if and only if no field was repeated or encoded longer than
      needed. */
  lemma BodySizeExactIff(s: Bytes)
    requires ParseBody(s).Accepted?
    ensures |SerializeBody(ParseBody(s).message)| <= |s|
    ensures |SerializeBody(ParseBody(s).message)| == |s| <==> Plain(EMPTY_BODY, s)
  {
    assert BodyLength(EMPTY_BODY) == 0;
    hide BodyApply, SerializeBody, Plain;
    AbsorbedLength(EMPTY_BODY, s);
  }

  lemma HeadNeverGrows(s: Bytes)
    requires ParseHead(s).Accepted?
    ensures |SerializeHead(ParseHead(s).message)| <= |s|
  {
    forall b, r ensures HeadLength(HeadApply(b, r)) <= HeadLength(b) + |Encode(r)| {
      ApplyLengthHead(b, r);
    }
    assert HeadLength(EMPTY_HEAD) == 0;
    hide HeadApply, Encode, SerializeHead;
    AbsorbShrinks(HeadApply, HeadLength, EMPTY_HEAD, s);
  }

  lemma FixedFieldSize(tag: uint32, v: Option<uint32>)
    requires tag < 0x80
    ensures |EncodeAll(FixedField(tag, v))| == if v.Some? then 5 else 0
  {
    if v.Some? {
      EncodeOne(Record(tag, Four(v.value)));
    }
  }

  lemma HeadSizeIs(h: Head)
    ensures |SerializeHead(h)| == (if h.cmd.Some? then 5 else 0) + (if h.msgbodyLen.Some? then 5 else 0)
                                  + (if h.sequence.Some? then 5 else 0) + |EncodeAll(h.unknown)|
  {
    FixedFieldSize(TAG_CMD, h.cmd);
    FixedFieldSize(TAG_MSGBODY_LEN, h.msgbodyLen);
    FixedFieldSize(TAG_SEQ, h.sequence);
    hide FixedField, EncodeAll;
  }

  /** A complete head is 15 bytes whatever its values; and any 15 bytes that parse to a
      complete head hold its three fields, in some order, and nothing else. */
  lemma CompleteHeadIsFifteenBytes(h: Head, s: Bytes)
    requires HeadInitialized(h)
    ensures h.unknown == [] ==> |SerializeHead(h)| == HEAD_SIZE
    ensures |s| == HEAD_SIZE && ParseHead(s) == Accepted(h) ==> h.unknown == []
  {
    HeadSizeIs(h);
    if |s| == HEAD_SIZE && ParseHead(s) == Accepted(h) {
      HeadNeverGrows(s);
      assert |EncodeAll(h.unknown)| == 0;
    }
  }

  /** The bytes of a complete head: three one-byte tags, each before a little-endian word. */
  lemma HeadLayout(cmd: uint32, msgbodyLen: uint32, sequence: uint32)
    ensures SerializeHead(Head(Some(cmd), Some(msgbodyLen), Some(sequence), []))
            == [13] + Fixed32(cmd) + [21] + Fixed32(msgbodyLen) + [29] + Fixed32(sequence)
  {
    EncodeOne(Record(TAG_CMD, Four(cmd)));
    EncodeOne(Record(TAG_MSGBODY_LEN, Four(msgbodyLen)));
    EncodeOne(Record(TAG_SEQ, Four(sequence)));
    assert Encode(Record(TAG_CMD, Four(cmd))) == [13] + Fixed32(cmd);
    assert Encode(Record(TAG_MSGBODY_LEN, Four(msgbodyLen))) == [21] + Fixed32(msgbodyLen);
    assert Encode(Record(TAG_SEQ, Four(sequence))) == [29] + Fixed32(sequence);
    hide Encode, Fixed32;
  }

  /** A length-delimited field as it travels, if it is present. */
  function Delimited(tag: byte, v: Option<Bytes>): Bytes {
    if v.Some? then [tag] + Varint(|v.value|) + v.value else []
  }

  lemma DelimitedIs(tag: byte, v: Option<Bytes>)
    requires tag < 0x80
    ensures EncodeAll(DataField(tag, v)) == Delimited(tag, v)
  {
    if v.Some? {
      EncodeOne(Record(tag, Data(v.value)));
      assert Varint(tag) == [tag];
      hide Varint;
    }
  }

  /** The bytes of a body: its fields in order, each only if present, then the unknown ones. */
  lemma BodyLayout(b: Body)
    ensures SerializeBody(b)
            == Delimited(10, b.body) + (if b.sessionId.Some? then [16] + Varint(b.sessionId.value) else [])
               + Delimited(26, b.session) + Delimited(34, b.additional) + EncodeAll(b.unknown)
  {
    DelimitedIs(10, b.body);
    DelimitedIs(26, b.session);
    DelimitedIs(34, b.additional);
    if b.sessionId.Some? {
      EncodeOne(Record(TAG_SESSION_ID, Number(b.sessionId.value)));
      assert Varint(16) == [16];
    }
    hide EncodeAll, Varint, Delimited, DataField;
  }

  lemma AppendedRecord(x: Bytes, r: Record)
    requires ParseBody(x).Accepted? && WellFormed(r)
    ensures ParseBody(x + Encode(r)) == Accepted(BodyApply(ParseBody(x).message, r))
  {
    hide ReadRecord, Encode, BodyApply, WellFormed;
    AbsorbConcat(BodyApply, EMPTY_BODY, x, Encode(r));
    RecordRoundTrip(r, []);
    assert Encode(r) + [] == Encode(r);
    assert Encode(r)[|Encode(r)|..] == [];
    EmptyEnds();
  }

  lemma DelimitedEncodes(tag: byte, v: Bytes)
    requires tag < 0x80
    ensures Encode(Record(tag, Data(v))) == [tag] + Varint(|v|) + v
  {
    assert Varint(tag) == [tag];
    hide Varint;
  }

  /** Behind any accepted bytes one more field replaces what its field held before and nothing
      else; a session id is kept modulo 2^32. */
  lemma LastFieldWins(x: Bytes, v: Bytes, n: uint64)
    requires ParseBody(x).Accepted? && |v| <= MAX_LENGTH
    ensures var m := ParseBody(x).message;
            && ParseBody(x + ([10] + Varint(|v|) + v)) == Accepted(m.(body := Some(v)))
            && ParseBody(x + ([16] + Varint(n))) == Accepted(m.(sessionId := Some(n % 0x1_0000_0000)))
            && ParseBody(x + ([26] + Varint(|v|) + v)) == Accepted(m.(session := Some(v)))
            && ParseBody(x + ([34] + Varint(|v|) + v)) == Accepted(m.(additional := Some(v)))
  {
    hide ParseBody, Varint;
    DelimitedEncodes(10, v);
    DelimitedEncodes(26, v);
    DelimitedEncodes(34, v);
    NumberEncodes(16, n);
    AppendedRecord(x, Record(10, Data(v)));
    AppendedRecord(x, Record(16, Number(n)));
    AppendedRecord(x, Record(26, Data(v)));
    AppendedRecord(x, Record(34, Data(v)));
    hide Encode;
  }

  lemma NumberEncodes(tag: byte, n: uint64)
    requires tag < 0x80
    ensures Encode(Record(tag, Number(n))) == [tag] + Varint(n)
  {
    assert Varint(tag) == [tag];
    hide Varint;
  }

  lemma AppendedHeadRecord(x: Bytes, r: Record)
    requires ParseHead(x).Accepted? && WellFormed(r)
    ensures ParseHead(x + Encode(r)) == Accepted(HeadApply(ParseHead(x).message, r))
  {
    hide ReadRecord, Encode, HeadApply, WellFormed;
    AbsorbConcat(HeadApply, EMPTY_HEAD, x, Encode(r));
    RecordRoundTrip(r, []);
    assert Encode(r) + [] == Encode(r);
    assert Encode(r)[|Encode(r)|..] == [];
    EmptyEnds();
  }

  lemma WordEncodes(tag: byte, v: uint32)
    requires tag < 0x80
    ensures Encode(Record(tag, Four(v))) == [tag] + Fixed32(v)
  {
    assert Varint(tag) == [tag];
    hide Varint, Fixed32;
  }

  /** The same for the three words of a head. */
  lemma LastWordWins(x: Bytes, v: uint32)
    requires ParseHead(x).Accepted?
    ensures var h := ParseHead(x).message;
            && ParseHead(x + ([13] + Fixed32(v))) == Accepted(h.(cmd := Some(v)))
            && ParseHead(x + ([21] + Fixed32(v))) == Accepted(h.(msgbodyLen := Some(v)))
            && ParseHead(x + ([29] + Fixed32(v))) == Accepted(h.(sequence := Some(v)))
  {
    hide ParseHead, Fixed32;
    WordEncodes(13, v);
    WordEncodes(21, v);
    WordEncodes(29, v);
    AppendedHeadRecord(x, Record(13, Four(v)));
    AppendedHeadRecord(x, Record(21, Four(v)));
    AppendedHeadRecord(x, Record(29, Four(v)));
    hide Encode;
  }

  // ----- every parsed message can be serialized -----

  lemma ParsedBodyOk(s: Bytes)
    requires ParseBody(s).Accepted?
    ensures BodyOk(ParseBody(s).message)
  {
    forall b, r | BodyOk(b) && WellFormed(r) ensures BodyOk(BodyApply(b, r)) {
      ApplyKeepsBodyOk(b, r);
    }
    hide BodyApply, BodyOk, WellFormed;
    EmptyBodyOk();
    AbsorbKeeps(BodyApply, BodyOk, EMPTY_BODY, s);
  }

  lemma EmptyBodyOk()
    ensures BodyOk(EMPTY_BODY)
  {
  }

  lemma ApplyKeepsBodyOk(b: Body, r: Record)
    requires BodyOk(b) && WellFormed(r)
    ensures BodyOk(BodyApply(b, r))
  {
  }

  /** Parsing normalizes: serializing a parsed body and parsing again changes nothing. */
  lemma ParsingNormalizes(s: Bytes)
    requires ParseBody(s).Accepted?
    ensures ParseBody(SerializeBody(ParseBody(s).message)) == ParseBody(s)
  {
    ParsedBodyOk(s);
    hide *;
    BodyRoundTrip(ParseBody(s).message);
  }
}
