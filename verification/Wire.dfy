/** The Protocol Buffers wire format ("Encoding": Base 128 Varints, Message Structure):
    tagged records, and the loop that folds them into a message. */
module Wire {
  import opened Options
  import opened Words

  type Bytes = seq<byte>

  // ----- varints -----

  const MAX_VARINT_BYTES := 10

  /** Base 128, least significant group first, high bit set on all but the last byte. */
  function Varint(n: nat): (s: Bytes)
    ensures |s| > 0
  {
    if n < 0x80 then [n] else [0x80 + n % 0x80] + Varint(n / 0x80)
  }

  datatype Read<+T> = Read(value: T, used: nat)

  /** Reads at most `budget` bytes; `None` if the varint does not end within them. */
  function ReadVarint(s: Bytes, budget: nat): (r: Option<Read<nat>>)
    ensures r.Some? ==> 0 < r.value.used <= |s| && r.value.used <= budget
    decreases budget
  {
    if budget == 0 || s == [] then None
    else if s[0] < 0x80 then Some(Read(s[0], 1))
    else
      match ReadVarint(s[1..], budget - 1)
      case None => None
      case Some(rest) => Some(Read(s[0] - 0x80 + 0x80 * rest.value, rest.used + 1))
  }

  function Pow128(k: nat): (p: nat)
    ensures p > 0
  {
    if k == 0 then 1 else 0x80 * Pow128(k - 1)
  }

  lemma {:induction false} VarintRoundTrip(n: nat, tail: Bytes, budget: nat)
    requires budget > 0 && n < Pow128(budget)
    ensures |Varint(n)| <= budget
    ensures ReadVarint(Varint(n) + tail, budget) == Some(Read(n, |Varint(n)|))
  {
    var s := Varint(n) + tail;
    if n >= 0x80 {
      assert Pow128(budget) == 0x80 * Pow128(budget - 1);
      assert Pow128(0) == 1;
      VarintRoundTrip(n / 0x80, tail, budget - 1);
      assert s[1..] == Varint(n / 0x80) + tail;
    }
  }

  /** What groups of seven bits denote, least significant first. */
  function Base128(s: Bytes): nat {
    if s == [] then 0 else s[0] % 0x80 + 0x80 * Base128(s[1..])
  }

  /** A varint denotes its number; every byte but the last has the high bit, which the last has
      not, and the last is not 0 if there are more. */
  lemma {:induction false} VarintDenotes(n: nat)
    ensures Base128(Varint(n)) == n
    ensures var s := Varint(n); forall i | 0 <= i < |s| :: s[i] >= 0x80 <==> i < |s| - 1
    ensures var s := Varint(n); |s| > 1 ==> s[|s| - 1] != 0
  {
    if n >= 0x80 {
      VarintDenotes(n / 0x80);
      assert Varint(n)[1..] == Varint(n / 0x80);
    } else {
      assert Varint(n) == [n] && [n][1..] == [] && Base128([]) == 0;
    }
  }

  /** The shortest encoding of a smaller number is no longer than any encoding read. */
  lemma {:induction false} VarintMinimal(s: Bytes, budget: nat, m: nat)
    requires ReadVarint(s, budget).Some? && m <= ReadVarint(s, budget).value.value
    ensures |Varint(m)| <= ReadVarint(s, budget).value.used
  {
    if s[0] >= 0x80 && m >= 0x80 {
      VarintMinimal(s[1..], budget - 1, m / 0x80);
    }
  }

  lemma {:induction false} VarintIgnoresTail(s: Bytes, tail: Bytes, budget: nat)
    requires ReadVarint(s, budget).Some?
    ensures ReadVarint(s + tail, budget) == ReadVarint(s, budget)
  {
    if s[0] >= 0x80 {
      assert (s + tail)[1..] == s[1..] + tail;
      VarintIgnoresTail(s[1..], tail, budget - 1);
    }
  }

  /** The size that `ByteSize` adds for a 32-bit varint. */
  function VarintSize32(n: uint32): nat {
    if n < 0x80 then 1
    else if n < 0x4000 then 2
    else if n < 0x20_0000 then 3
    else if n < 0x1000_0000 then 4
    else 5
  }

  lemma VarintSizeExact(n: uint32)
    ensures |Varint(n)| == VarintSize32(n)
  {
    assert n >= 0x80 ==> |Varint(n)| == 1 + |Varint(n / 0x80)|;
    assert n >= 0x4000 ==> |Varint(n / 0x80)| == 1 + |Varint(n / 0x80 / 0x80)|;
    assert n >= 0x20_0000 ==> |Varint(n / 0x80 / 0x80)| == 1 + |Varint(n / 0x80 / 0x80 / 0x80)|;
    assert n >= 0x1000_0000 ==>
        |Varint(n / 0x80 / 0x80 / 0x80)| == 1 + |Varint(n / 0x80 / 0x80 / 0x80 / 0x80)|;
  }

  // ----- fixed32 -----

  function Fixed32(v: uint32): (s: Bytes)
    ensures |s| == 4
  {
    [v % 0x100, v / 0x100 % 0x100, v / 0x1_0000 % 0x100, v / 0x100_0000]
  }

  function FromFixed32(s: Bytes): uint32
    requires |s| >= 4
  {
    s[0] as int + 0x100 * s[1] as int + 0x1_0000 * s[2] as int + 0x100_0000 * s[3] as int
  }

  lemma Fixed32RoundTrip(v: uint32, s: Bytes)
    ensures FromFixed32(Fixed32(v) + s) == v
  {
    var a, b, c := v / 0x100, v / 0x1_0000, v / 0x100_0000;
    BytesOfWord(v);
    var t := Fixed32(v) + s;
    assert t[0] == v % 0x100 && t[1] == a % 0x100 && t[2] == b % 0x100 && t[3] == c;
    hide Fixed32;
  }

  lemma BytesOfWord(v: uint32)
    ensures v == v % 0x100 + 0x100 * (v / 0x100)
    ensures v / 0x100 == v / 0x100 % 0x100 + 0x100 * (v / 0x1_0000)
    ensures v / 0x1_0000 == v / 0x1_0000 % 0x100 + 0x100 * (v / 0x100_0000)
  {
  }

  // ----- records -----

  /** A field as it travels: the payload is read by the wire type in the tag's low bits. */
  datatype Payload =
    | Number(n: uint64)
    | Eight(raw: Bytes)
    | Data(bytes: Bytes)
    | Four(v: uint32)

  datatype Record = Record(tag: uint32, payload: Payload)

  const VARINT := 0
  const FIXED64 := 1
  const LENGTH_DELIMITED := 2
  const START_GROUP := 3
  const FIXED32 := 5

  const MAX_LENGTH := 0x7FFF_FFFF

  predicate WellFormed(r: Record) {
    && r.tag > 0
    && match r.payload
       case Number(_) => r.tag % 8 == VARINT
       case Eight(raw) => r.tag % 8 == FIXED64 && |raw| == 8
       case Data(bytes) => r.tag % 8 == LENGTH_DELIMITED && |bytes| <= MAX_LENGTH
       case Four(_) => r.tag % 8 == FIXED32
  }

  function EncodePayload(p: Payload): Bytes {
    match p
    case Number(n) => Varint(n)
    case Eight(raw) => raw
    case Data(bytes) => Varint(|bytes|) + bytes
    case Four(v) => Fixed32(v)
  }

  function Encode(r: Record): (s: Bytes)
    ensures |s| > 0
  {
    Varint(r.tag) + EncodePayload(r.payload)
  }

  function EncodeAll(rs: seq<Record>): Bytes {
    if |rs| == 0 then [] else Encode(rs[0]) + EncodeAll(rs[1..])
  }

  function ReadPayload(wireType: nat, s: Bytes): (r: Option<Read<Payload>>)
    requires wireType < 8
    ensures r.Some? ==> 0 < r.value.used <= |s|
  {
    if wireType == VARINT then
      match ReadVarint(s, MAX_VARINT_BYTES)
      case None => None
      case Some(v) => Some(Read(Number(v.value % TWO_64), v.used))
    else if wireType == FIXED64 then
      if |s| < 8 then None else Some(Read(Eight(s[..8]), 8))
    else if wireType == LENGTH_DELIMITED then
      match ReadVarint(s, MAX_VARINT_BYTES)
      case None => None
      case Some(v) =>
        var length := v.value % TWO_32;
        if length > MAX_LENGTH || v.used + length > |s| then None
        else Some(Read(Data(s[v.used..v.used + length]), v.used + length))
    else if wireType == FIXED32 then
      if |s| < 4 then None else Some(Read(Four(FromFixed32(s)), 4))
    else None
  }

  /** One turn of the parse loop. A tag that is missing, zero or closes a group stops the
      loop short of a legitimate end, which rejects the message like any failed read. */
  datatype Turn = End | Next(record: Record, used: nat) | Reject | Group

  function ReadRecord(s: Bytes): (t: Turn)
    ensures t.Next? ==> 0 < t.used <= |s|
  {
    if s == [] then End
    else
      match ReadVarint(s, MAX_VARINT_BYTES)
      case None => Reject
      case Some(v) =>
        var tag := v.value % TWO_32;
        if tag == 0 then Reject
        else if tag % 8 == START_GROUP then Group
        else
          match ReadPayload(tag % 8, s[v.used..])
          case None => Reject
          case Some(p) => Next(Record(tag, p.value), v.used + p.used)
  }

  lemma DataRoundTrip(bytes: Bytes, tail: Bytes)
    requires |bytes| <= MAX_LENGTH
    ensures ReadPayload(LENGTH_DELIMITED, Varint(|bytes|) + bytes + tail)
            == Some(Read(Data(bytes), |Varint(|bytes|)| + |bytes|))
  {
    Pow128Values();
    hide ReadVarint, Varint, Pow128;
    var s, n := Varint(|bytes|) + bytes + tail, |Varint(|bytes|)|;
    assert s == Varint(|bytes|) + (bytes + tail);
    VarintRoundTrip(|bytes|, bytes + tail, MAX_VARINT_BYTES);
    assert ReadVarint(s, MAX_VARINT_BYTES) == Some(Read(|bytes|, n));
    assert |bytes| % TWO_32 == |bytes|;
    assert s[n..n + |bytes|] == bytes;
  }

  lemma NumberRoundTrip(n: uint64, tail: Bytes)
    ensures ReadPayload(VARINT, Varint(n) + tail) == Some(Read(Number(n), |Varint(n)|))
  {
    Pow128Values();
    hide ReadVarint, Varint, Pow128;
    VarintRoundTrip(n, tail, MAX_VARINT_BYTES);
  }

  lemma FourRoundTrip(v: uint32, tail: Bytes)
    ensures ReadPayload(FIXED32, Fixed32(v) + tail) == Some(Read(Four(v), 4))
  {
    Fixed32RoundTrip(v, tail);
  }

  lemma PayloadRoundTrip(r: Record, tail: Bytes)
    requires WellFormed(r)
    ensures ReadPayload(r.tag % 8, EncodePayload(r.payload) + tail)
            == Some(Read(r.payload, |EncodePayload(r.payload)|))
  {
    match r.payload
    case Number(n) => NumberRoundTrip(n, tail);
    case Eight(raw) => assert (raw + tail)[..8] == raw;
    case Data(bytes) => DataRoundTrip(bytes, tail);
    case Four(v) => FourRoundTrip(v, tail);
  }

  lemma Pow128Values()
    ensures Pow128(MAX_VARINT_BYTES) >= TWO_64
  {
    assert Pow128(5) == 0x8_0000_0000;
    assert Pow128(10) == 0x8_0000_0000 * 0x8_0000_0000;
  }

  lemma ReadRecordIs(s: Bytes, tag: uint32, n: nat, p: Read<Payload>)
    requires tag > 0 && tag % 8 != START_GROUP && n <= |s|
    requires ReadVarint(s, MAX_VARINT_BYTES) == Some(Read(tag, n))
    requires ReadPayload(tag % 8, s[n..]) == Some(p)
    ensures ReadRecord(s) == Next(Record(tag, p.value), n + p.used)
  {
    hide ReadVarint, ReadPayload;
    assert tag % TWO_32 == tag;
  }

  lemma RecordRoundTrip(r: Record, tail: Bytes)
    requires WellFormed(r)
    ensures ReadRecord(Encode(r) + tail) == Next(r, |Encode(r)|)
  {
    assert r.tag > 0 && r.tag % 8 != START_GROUP;
    var n, rest := |Varint(r.tag)|, EncodePayload(r.payload) + tail;
    assert Encode(r) + tail == Varint(r.tag) + rest;
    assert |Encode(r)| == n + |EncodePayload(r.payload)|;
    Pow128Values();
    hide *;
    VarintRoundTrip(r.tag, rest, MAX_VARINT_BYTES);
    PayloadRoundTrip(r, tail);
    assert (Varint(r.tag) + rest)[n..] == rest;
    ReadRecordIs(Varint(r.tag) + rest, r.tag, n, Read(r.payload, |EncodePayload(r.payload)|));
  }

  lemma PayloadIgnoresTail(wireType: nat, s: Bytes, tail: Bytes)
    requires wireType < 8 && ReadPayload(wireType, s).Some?
    ensures ReadPayload(wireType, s + tail) == ReadPayload(wireType, s)
  {
    if wireType == VARINT {
      VarintIgnoresTail(s, tail, MAX_VARINT_BYTES);
    } else if wireType == LENGTH_DELIMITED {
      VarintIgnoresTail(s, tail, MAX_VARINT_BYTES);
      var v := ReadVarint(s, MAX_VARINT_BYTES).value;
      var end := v.used + v.value % TWO_32;
      assert (s + tail)[v.used..end] == s[v.used..end];
    } else if wireType == FIXED64 {
      assert (s + tail)[..8] == s[..8];
    }
  }

  lemma RecordIgnoresTail(s: Bytes, tail: Bytes)
    requires ReadRecord(s).Next?
    ensures ReadRecord(s + tail) == ReadRecord(s)
  {
    VarintIgnoresTail(s, tail, MAX_VARINT_BYTES);
    var v := ReadVarint(s, MAX_VARINT_BYTES).value;
    assert (s + tail)[v.used..] == s[v.used..] + tail;
    PayloadIgnoresTail(v.value % TWO_32 % 8, s[v.used..], tail);
  }

  /** A record that was read is well-formed and re-encodes to no more bytes than it took. */
  lemma RecordMinimal(s: Bytes)
    requires ReadRecord(s).Next?
    ensures WellFormed(ReadRecord(s).record)
    ensures |Encode(ReadRecord(s).record)| <= ReadRecord(s).used
  {
    var v := ReadVarint(s, MAX_VARINT_BYTES).value;
    VarintMinimal(s, MAX_VARINT_BYTES, v.value % TWO_32);
    PayloadMinimal(v.value % TWO_32 % 8, s[v.used..]);
  }

  lemma PayloadMinimal(wireType: nat, s: Bytes)
    requires wireType < 8 && ReadPayload(wireType, s).Some?
    ensures |EncodePayload(ReadPayload(wireType, s).value.value)| <= ReadPayload(wireType, s).value.used
  {
    if wireType == VARINT {
      VarintMinimal(s, MAX_VARINT_BYTES, ReadVarint(s, MAX_VARINT_BYTES).value.value % TWO_64);
    } else if wireType == LENGTH_DELIMITED {
      VarintMinimal(s, MAX_VARINT_BYTES, ReadVarint(s, MAX_VARINT_BYTES).value.value % TWO_32);
    }
  }

  // ----- what is rejected -----

  lemma {:induction false} UnendingVarint(s: Bytes, budget: nat)
    requires forall i | 0 <= i < |s| && i < budget :: s[i] >= 0x80
    ensures ReadVarint(s, budget) == None
  {
    if budget > 0 && s != [] {
      assert forall i | 0 <= i < |s[1..]| && i < budget - 1 :: s[1..][i] == s[i + 1];
      UnendingVarint(s[1..], budget - 1);
    }
  }

  /** A tag that does not end within ten bytes is rejected. */
  lemma EndlessTagRejected(s: Bytes)
    requires s != [] && forall i | 0 <= i < |s| && i < 10 :: s[i] >= 0x80
    ensures ReadRecord(s) == Reject
  {
    UnendingVarint(s, 10);
  }

  /** So are the tag 0 and the wire types 4, 6 and 7; wire type 3 opens a group. */
  lemma BadTagRejected(s: Bytes)
    requires s != [] && s[0] < 0x80
    ensures s[0] == 0 || s[0] % 8 == 4 || s[0] % 8 == 6 || s[0] % 8 == 7 ==> ReadRecord(s) == Reject
    ensures ReadRecord(s) == Group <==> s[0] % 8 == 3
  {
    OneByteVarint(s);
    hide ReadVarint;
    assert s[0] as int % TWO_32 == s[0] as int;
    NoSuchWireType(s[0] % 8, s[1..]);
    hide ReadPayload;
  }

  lemma OneByteVarint(s: Bytes)
    requires s != [] && s[0] < 0x80
    ensures ReadVarint(s, MAX_VARINT_BYTES) == Some(Read(s[0], 1))
  {
  }

  lemma NoSuchWireType(wireType: nat, s: Bytes)
    requires wireType < 8
    ensures wireType == 4 || wireType == 6 || wireType == 7 ==> ReadPayload(wireType, s) == None
  {
    hide ReadVarint;
  }

  lemma {:induction false} VarintPrefix(n: nat, k: nat, budget: nat)
    requires k < |Varint(n)|
    ensures ReadVarint(Varint(n)[..k], budget) == None
  {
    if k > 0 && n >= 0x80 && budget > 0 {
      assert Varint(n)[..k][1..] == Varint(n / 0x80)[..k - 1];
      VarintPrefix(n / 0x80, k - 1, budget - 1);
    }
  }

  lemma DataPrefix(bytes: Bytes, k: nat)
    requires |bytes| <= MAX_LENGTH && k < |Varint(|bytes|) + bytes|
    ensures ReadPayload(LENGTH_DELIMITED, (Varint(|bytes|) + bytes)[..k]) == None
  {
    Pow128Values();
    hide ReadVarint, Varint, Pow128;
    var v := Varint(|bytes|);
    if k < |v| {
      assert (v + bytes)[..k] == v[..k];
      VarintPrefix(|bytes|, k, MAX_VARINT_BYTES);
    } else {
      assert (v + bytes)[..k] == v + bytes[..k - |v|];
      VarintRoundTrip(|bytes|, bytes[..k - |v|], MAX_VARINT_BYTES);
      assert |bytes| % TWO_32 == |bytes|;
    }
  }

  lemma PayloadPrefix(r: Record, k: nat)
    requires WellFormed(r) && k < |EncodePayload(r.payload)|
    ensures ReadPayload(r.tag % 8, EncodePayload(r.payload)[..k]) == None
  {
    match r.payload
    case Number(n) => VarintPrefix(n, k, MAX_VARINT_BYTES);
    case Eight(raw) =>
    case Data(bytes) => DataPrefix(bytes, k);
    case Four(v) =>
  }

  lemma BadPayloadRejected(tag: uint32, p: Bytes)
    requires tag > 0 && tag % 8 != START_GROUP && ReadPayload(tag % 8, p) == None
    ensures ReadRecord(Varint(tag) + p) == Reject
  {
    Pow128Values();
    hide ReadPayload, ReadVarint, Varint, Pow128;
    var v := Varint(tag);
    VarintRoundTrip(tag, p, MAX_VARINT_BYTES);
    assert (v + p)[|v|..] == p && tag % TWO_32 == tag;
  }

  lemma BadTagBytesRejected(s: Bytes)
    requires s != [] && ReadVarint(s, MAX_VARINT_BYTES) == None
    ensures ReadRecord(s) == Reject
  {
    hide ReadVarint, ReadPayload;
  }

  /** A record that is cut short is rejected, wherever it is cut. */
  lemma TruncatedRejected(r: Record, k: nat)
    requires WellFormed(r) && 0 < k < |Encode(r)|
    ensures ReadRecord(Encode(r)[..k]) == Reject
  {
    var v, p := Varint(r.tag), EncodePayload(r.payload);
    assert Encode(r) == v + p && r.tag > 0 && r.tag % 8 != START_GROUP;
    hide *;
    if k < |v| {
      assert (v + p)[..k] == v[..k];
      VarintPrefix(r.tag, k, MAX_VARINT_BYTES);
      BadTagBytesRejected(v[..k]);
    } else {
      assert (v + p)[..k] == v + p[..k - |v|];
      PayloadPrefix(r, k - |v|);
      BadPayloadRejected(r.tag, p[..k - |v|]);
    }
  }

  // ----- the parse loop, for any message type -----

  datatype Parsed<+M> = Accepted(message: M) | Rejected | HasGroup

  /** Reads records to the end of `s`, applying each to the message so far. */
  function Absorb<M>(apply: (M, Record) -> M, m: M, s: Bytes): Parsed<M>
    decreases |s|
  {
    match ReadRecord(s)
    case End => Accepted(m)
    case Reject => Rejected
    case Group => HasGroup
    case Next(r, used) => Absorb(apply, apply(m, r), s[used..])
  }

  /** The loop over a concatenation is the loop over the parts, for every accepted first part. */
  lemma {:induction false} AbsorbConcat<M>(apply: (M, Record) -> M, m: M, x: Bytes, y: Bytes)
    requires Absorb(apply, m, x).Accepted?
    ensures Absorb(apply, m, x + y) == Absorb(apply, Absorb(apply, m, x).message, y)
    decreases |x|
  {
    hide ReadRecord;
    if x == [] {
      EmptyEnds();
      assert x + y == y;
    } else {
      NonEmptyContinues(x);
      match ReadRecord(x)
      case Next(r, used) =>
        RecordIgnoresTail(x, y);
        assert (x + y)[used..] == x[used..] + y;
        AbsorbConcat(apply, apply(m, r), x[used..], y);
      case _ =>
    }
  }

  lemma EmptyEnds()
    ensures ReadRecord([]) == End
  {
  }

  lemma NonEmptyContinues(s: Bytes)
    ensures ReadRecord(s) == End <==> s == []
  {
  }

  /** Encoded records are absorbed one by one, whatever follows them. */
  lemma {:induction false} AbsorbEncoded<M>(apply: (M, Record) -> M, m: M, rs: seq<Record>, tail: Bytes)
    requires forall i | 0 <= i < |rs| :: WellFormed(rs[i])
    ensures Absorb(apply, m, EncodeAll(rs) + tail) == Absorb(apply, FoldRecords(apply, m, rs), tail)
    decreases |rs|
  {
    hide ReadRecord, Encode, WellFormed;
    if |rs| == 0 {
      assert EncodeAll(rs) + tail == tail;
    } else {
      var rest := EncodeAll(rs[1..]) + tail;
      assert EncodeAll(rs) + tail == Encode(rs[0]) + rest;
      RecordRoundTrip(rs[0], rest);
      assert (Encode(rs[0]) + rest)[|Encode(rs[0])|..] == rest;
      AbsorbEncoded(apply, apply(m, rs[0]), rs[1..], tail);
    }
  }

  function FoldRecords<M>(apply: (M, Record) -> M, m: M, rs: seq<Record>): M {
    if |rs| == 0 then m else FoldRecords(apply, apply(m, rs[0]), rs[1..])
  }

  /** If merging into `a` commutes with absorbing one record, it commutes with the loop. */
  lemma {:induction false} AbsorbMerges<M(!new)>(apply: (M, Record) -> M, merge: (M, M) -> M, a: M, m: M, s: Bytes)
    requires forall b, r :: merge(a, apply(b, r)) == apply(merge(a, b), r)
    requires Absorb(apply, m, s).Accepted?
    ensures Absorb(apply, merge(a, m), s) == Accepted(merge(a, Absorb(apply, m, s).message))
    decreases |s|
  {
    hide ReadRecord;
    match ReadRecord(s)
    case Next(r, used) => AbsorbMerges(apply, merge, a, apply(m, r), s[used..]);
    case _ =>
  }

  /** If no record adds more than its shortest encoding, a parsed message is no longer
      than the bytes it was parsed from. */
  lemma {:induction false} AbsorbShrinks<M(!new)>(apply: (M, Record) -> M, size: M -> nat, m: M, s: Bytes)
    requires forall b, r :: size(apply(b, r)) <= size(b) + |Encode(r)|
    requires Absorb(apply, m, s).Accepted?
    ensures size(Absorb(apply, m, s).message) <= size(m) + |s|
    decreases |s|
  {
    hide ReadRecord, Encode;
    match ReadRecord(s)
    case Next(r, used) =>
      RecordMinimal(s);
      AbsorbShrinks(apply, size, apply(m, r), s[used..]);
    case _ =>
  }

  /** A property of messages that every well-formed record keeps, the loop keeps. */
  lemma {:induction false} AbsorbKeeps<M(!new)>(apply: (M, Record) -> M, inv: M -> bool, m: M, s: Bytes)
    requires forall b, r :: inv(b) && WellFormed(r) ==> inv(apply(b, r))
    requires inv(m) && Absorb(apply, m, s).Accepted?
    ensures inv(Absorb(apply, m, s).message)
    decreases |s|
  {
    hide ReadRecord, WellFormed;
    match ReadRecord(s)
    case Next(r, used) =>
      RecordMinimal(s);
      AbsorbKeeps(apply, inv, apply(m, r), s[used..]);
    case _ =>
  }
}
