/** The message objects with their has-bits, and the generated parse loop: after each field
    it looks for the tag that usually comes next and jumps straight to that field. */
module MessageObjects {
  import opened Options
  import opened Words
  import opened Wire
  import opened Messages
  import MessageProofs

  /** `Unmodelled`: the input opened a group. */
  datatype Status = Success | Failure | Unmodelled

  /** How the loop ends, from what it would have absorbed. */
  ghost predicate Ends<M>(status: Status, message: M, expected: Parsed<M>) {
    match expected
    case Accepted(m) => status == Success && message == m
    case Rejected => status == Failure
    case HasGroup => status == Unmodelled
  }

  /** Where the parse loop stands: at a tag, or behind the tag it found by looking ahead. */
  ghost predicate Resumes<M>(apply: (M, Record) -> M, m: M, input: Bytes, pos: nat, tag: uint32, expected: Parsed<M>) {
    && pos <= |input|
    && (tag != 0 ==> tag < 0x80 && pos > 0 && input[pos - 1] == tag)
    && Absorb(apply, m, input[if tag == 0 then pos else pos - 1..]) == expected
  }

  /** The tag at `pos`, or the one already looked ahead at: (0, _) when none can be read. */
  method ReadTag(input: Bytes, pos: nat, ahead: uint32) returns (tag: uint32, next: nat)
    requires pos < |input| || ahead != 0
    requires pos <= |input|
    requires ahead != 0 ==> ahead < 0x80 && pos > 0 && input[pos - 1] == ahead
    ensures pos <= next <= |input|
    ensures var start := if ahead == 0 then pos else pos - 1;
            match ReadVarint(input[start..], MAX_VARINT_BYTES)
            case None => tag == 0
            case Some(v) => tag == v.value % TWO_32 && next == start + v.used
  {
    if ahead != 0 {
      return ahead, pos;
    }
    match ReadVarint(input[pos..], MAX_VARINT_BYTES)
    case None => return 0, pos;
    case Some(v) => return v.value % TWO_32, pos + v.used;
  }

  /** One turn of the loop: a rejected tag or payload ends it, a record moves it on. */
  lemma TurnOf<M>(apply: (M, Record) -> M, m: M, input: Bytes, start: nat, tag: uint32, next: nat,
                  payload: Option<Read<Payload>>)
    requires start < |input| && start <= next <= |input|
    requires match ReadVarint(input[start..], MAX_VARINT_BYTES)
             case None => tag == 0
             case Some(v) => tag == v.value % TWO_32 && next == start + v.used
    requires tag != 0 ==> payload == ReadPayload(tag % 8, input[next..])
    ensures Absorb(apply, m, input[start..]) ==
            if tag == 0 then Rejected
            else if tag % 8 == START_GROUP then HasGroup
            else if payload == None then Rejected
            else Absorb(apply, apply(m, Record(tag, payload.value.value)), input[next + payload.value.used..])
  {
    hide ReadVarint, ReadPayload;
    var s := input[start..];
    if tag != 0 {
      assert s[next - start..] == input[next..];
      if tag % 8 != START_GROUP && payload.Some? {
        assert s[next - start + payload.value.used..] == input[next + payload.value.used..];
      }
    }
  }

  lemma NoBytesLeft<M>(apply: (M, Record) -> M, m: M, input: Bytes)
    ensures Absorb(apply, m, input[|input|..]) == Accepted(m)
  {
  }

  class MsgHead {
    var hasBits: set<nat>
    var cmd: uint32
    var msgbodyLen: uint32
    var sequence: uint32
    var unknown: seq<Record>

    constructor ()
      ensures View() == EMPTY_HEAD
    {
      hasBits, cmd, msgbodyLen, sequence, unknown := {}, 0, 0, 0, [];
    }

    function View(): Head
      reads this
    {
      Head(if 1 in hasBits then Some(cmd) else None,
           if 2 in hasBits then Some(msgbodyLen) else None,
           if 3 in hasBits then Some(sequence) else None,
           unknown)
    }

    method Set(cmd: uint32, msgbodyLen: uint32, sequence: uint32)
      modifies this
      ensures View() == Head(Some(cmd), Some(msgbodyLen), Some(sequence), old(View().unknown))
    {
      hasBits := hasBits + {1, 2, 3};
      this.cmd, this.msgbodyLen, this.sequence := cmd, msgbodyLen, sequence;
    }

    method Clear()
      modifies this
      ensures View() == EMPTY_HEAD
    {
      hasBits, cmd, msgbodyLen, sequence, unknown := {}, 0, 0, 0, [];
    }

    method MergeFrom(from: MsgHead)
      requires from != this
      modifies this
      ensures View() == MergeHead(old(View()), from.View())
    {
      if 1 in from.hasBits {
        hasBits, cmd := hasBits + {1}, from.cmd;
      }
      if 2 in from.hasBits {
        hasBits, msgbodyLen := hasBits + {2}, from.msgbodyLen;
      }
      if 3 in from.hasBits {
        hasBits, sequence := hasBits + {3}, from.sequence;
      }
      unknown := unknown + from.unknown;
    }

    method IsInitialized() returns (ok: bool)
      ensures ok == HeadInitialized(View())
    {
      ok := {1, 2, 3} <= hasBits;
    }

    method ByteSize() returns (total: nat)
      ensures total == |SerializeHead(View())|
    {
      total := 0;
      if 1 in hasBits {
        total := total + 1 + 4;
      }
      if 2 in hasBits {
        total := total + 1 + 4;
      }
      if 3 in hasBits {
        total := total + 1 + 4;
      }
      MessageProofs.HeadSizeIs(View());
      hide SerializeHead, EncodeAll;
      total := total + |EncodeAll(unknown)|;
    }

    method SerializeAsString() returns (output: Bytes)
      ensures output == SerializeHead(View())
    {
      hide EncodeAll;
      output := EncodeAll(FixedField(TAG_CMD, if 1 in hasBits then Some(cmd) else None));
      output := output + EncodeAll(FixedField(TAG_MSGBODY_LEN, if 2 in hasBits then Some(msgbodyLen) else None));
      output := output + EncodeAll(FixedField(TAG_SEQ, if 3 in hasBits then Some(sequence) else None));
      output := output + EncodeAll(unknown);
    }

    method Store(tag: uint32, payload: Payload)
      requires WellFormed(Record(tag, payload))
      modifies this
      ensures View() == HeadApply(old(View()), Record(tag, payload))
    {
      if tag == TAG_CMD {
        hasBits, cmd := hasBits + {1}, payload.v;
      } else if tag == TAG_MSGBODY_LEN {
        hasBits, msgbodyLen := hasBits + {2}, payload.v;
      } else if tag == TAG_SEQ {
        hasBits, sequence := hasBits + {3}, payload.v;
      } else {
        unknown := unknown + [Record(tag, payload)];
      }
    }

    method MergeFromArray(input: Bytes) returns (status: Status)
      modifies this
      ensures Ends(status, View(), Absorb(HeadApply, old(View()), input))
    {
      hide Absorb, ReadVarint, ReadPayload, HeadApply;
      ghost var expected := Absorb(HeadApply, View(), input);
      var pos: nat, ahead: uint32 := 0, 0;
      assert input[0..] == input;
      while true
        invariant Resumes(HeadApply, View(), input, pos, ahead, expected)
        decreases |input| - pos
      {
        if pos == |input| && ahead == 0 {
          NoBytesLeft(HeadApply, View(), input);
          return Success;
        }
        ghost var start := if ahead == 0 then pos else pos - 1;
        LookAheadReads(input, pos, ahead);
        var tag, next := ReadTag(input, pos, ahead);
        var payload := if tag == 0 then None else ReadPayload(tag % 8, input[next..]);
        TurnOf(HeadApply, View(), input, start, tag, next, payload);
        if tag == 0 {
          return Failure;
        }
        if tag % 8 == START_GROUP {
          return Unmodelled;
        }
        if payload == None {
          return Failure;
        }
        PayloadFits(tag, input[next..]);
        Store(tag, payload.value.value);
        pos := next + payload.value.used;
        ahead := Following(tag);
        if ahead != 0 && pos < |input| && input[pos] == ahead {
          pos := pos + 1;
        } else {
          ahead := 0;
        }
      }
    }

    static function Following(tag: uint32): uint32 {
      if tag == TAG_CMD then TAG_MSGBODY_LEN else if tag == TAG_MSGBODY_LEN then TAG_SEQ else 0
    }

    method ParseFromArray(input: Bytes) returns (status: Status)
      modifies this
      ensures match ParseHead(input)
              case Accepted(m) => View() == m && status == if HeadInitialized(m) then Success else Failure
              case Rejected => status == Failure
              case HasGroup => status == Unmodelled
    {
      Clear();
      status := MergeFromArray(input);
      if status == Success {
        var initialized := IsInitialized();
        if !initialized {
          status := Failure;
        }
      }
    }
  }

  class MsgBody {
    var hasBits: set<nat>
    var body: Bytes
    var sessionId: uint32
    var session: Bytes
    var additional: Bytes
    var unknown: seq<Record>

    constructor ()
      ensures View() == EMPTY_BODY
    {
      hasBits, body, sessionId, session, additional, unknown := {}, [], 0, [], [], [];
    }

    function View(): Body
      reads this
    {
      Body(if 1 in hasBits then Some(body) else None,
           if 2 in hasBits then Some(sessionId) else None,
           if 3 in hasBits then Some(session) else None,
           if 4 in hasBits then Some(additional) else None,
           unknown)
    }

    method Clear()
      modifies this
      ensures View() == EMPTY_BODY
    {
      if hasBits != {} {
        body, sessionId, session, additional := [], 0, [], [];
      }
      hasBits := {};
      unknown := [];
    }

    method MergeFrom(from: MsgBody)
      requires from != this
      modifies this
      ensures View() == MergeBody(old(View()), from.View())
    {
      if 1 in from.hasBits {
        hasBits, body := hasBits + {1}, from.body;
      }
      if 2 in from.hasBits {
        hasBits, sessionId := hasBits + {2}, from.sessionId;
      }
      if 3 in from.hasBits {
        hasBits, session := hasBits + {3}, from.session;
      }
      if 4 in from.hasBits {
        hasBits, additional := hasBits + {4}, from.additional;
      }
      unknown := unknown + from.unknown;
    }

    method IsInitialized() returns (ok: bool)
      ensures ok == BodyInitialized(View())
    {
      ok := 1 in hasBits;
    }

    /** The size of a message, field by field, without serializing it. */
    method ByteSize() returns (total: nat)
      requires BodyOk(View())
      ensures total == |SerializeBody(View())|
    {
      hide EncodeAll, Encode, DataField, NumberField, VarintSize32, Varint;
      total := 0;
      if 1 in hasBits {
        total := total + 1 + VarintSize32(|body|) + |body|;
      }
      if 2 in hasBits {
        total := total + 1 + VarintSize32(sessionId);
      }
      if 3 in hasBits {
        total := total + 1 + VarintSize32(|session|) + |session|;
      }
      if 4 in hasBits {
        total := total + 1 + VarintSize32(|additional|) + |additional|;
      }
      DataFieldSize(TAG_BODY, View().body);
      NumberFieldSize(TAG_SESSION_ID, View().sessionId);
      DataFieldSize(TAG_SESSION, View().session);
      DataFieldSize(TAG_ADDITIONAL, View().additional);
      total := total + |EncodeAll(unknown)|;
    }

    method SerializeAsString() returns (output: Bytes)
      ensures output == SerializeBody(View())
    {
      hide EncodeAll;
      output := EncodeAll(DataField(TAG_BODY, if 1 in hasBits then Some(body) else None));
      output := output + EncodeAll(NumberField(TAG_SESSION_ID, if 2 in hasBits then Some(sessionId) else None));
      output := output + EncodeAll(DataField(TAG_SESSION, if 3 in hasBits then Some(session) else None));
      output := output + EncodeAll(DataField(TAG_ADDITIONAL, if 4 in hasBits then Some(additional) else None));
      output := output + EncodeAll(unknown);
    }

    /** The switch on the field number, with the payload already read. */
    method Store(tag: uint32, payload: Payload)
      requires WellFormed(Record(tag, payload))
      modifies this
      ensures View() == BodyApply(old(View()), Record(tag, payload))
    {
      if tag == TAG_BODY {
        hasBits, body := hasBits + {1}, payload.bytes;
      } else if tag == TAG_SESSION_ID {
        hasBits, sessionId := hasBits + {2}, payload.n % TWO_32;
      } else if tag == TAG_SESSION {
        hasBits, session := hasBits + {3}, payload.bytes;
      } else if tag == TAG_ADDITIONAL {
        hasBits, additional := hasBits + {4}, payload.bytes;
      } else {
        unknown := unknown + [Record(tag, payload)];
      }
    }

    /** The loop merges into the message what absorbing the input record by record would. */
    method MergeFromArray(input: Bytes) returns (status: Status)
      modifies this
      ensures Ends(status, View(), Absorb(BodyApply, old(View()), input))
    {
      hide Absorb, ReadVarint, ReadPayload, BodyApply;
      ghost var expected := Absorb(BodyApply, View(), input);
      var pos: nat, ahead: uint32 := 0, 0;
      assert input[0..] == input;
      while true
        invariant Resumes(BodyApply, View(), input, pos, ahead, expected)
        decreases |input| - pos
      {
        if pos == |input| && ahead == 0 {
          NoBytesLeft(BodyApply, View(), input);
          return Success;
        }
        ghost var start := if ahead == 0 then pos else pos - 1;
        LookAheadReads(input, pos, ahead);
        var tag, next := ReadTag(input, pos, ahead);
        var payload := if tag == 0 then None else ReadPayload(tag % 8, input[next..]);
        TurnOf(BodyApply, View(), input, start, tag, next, payload);
        if tag == 0 {
          return Failure;
        }
        if tag % 8 == START_GROUP {
          return Unmodelled;
        }
        if payload == None {
          return Failure;
        }
        PayloadFits(tag, input[next..]);
        Store(tag, payload.value.value);
        pos := next + payload.value.used;
        ahead := Following(tag);
        if ahead != 0 && pos < |input| && input[pos] == ahead {
          pos := pos + 1;
        } else {
          ahead := 0;
        }
      }
    }

    /** The tag the generated code expects after a field. */
    static function Following(tag: uint32): uint32 {
      if tag == TAG_BODY then TAG_SESSION_ID
      else if tag == TAG_SESSION_ID then TAG_SESSION
      else if tag == TAG_SESSION then TAG_ADDITIONAL
      else 0
    }

    method ParseFromArray(input: Bytes) returns (status: Status)
      modifies this
      ensures match ParseBody(input)
              case Accepted(m) => View() == m && status == if BodyInitialized(m) then Success else Failure
              case Rejected => status == Failure
              case HasGroup => status == Unmodelled
    {
      Clear();
      status := MergeFromArray(input);
      if status == Success {
        var initialized := IsInitialized();
        if !initialized {
          status := Failure;
        }
      }
    }
  }

  lemma DataFieldSize(tag: uint32, v: Option<Bytes>)
    requires tag < 0x80 && Short(v)
    ensures |EncodeAll(DataField(tag, v))| == if v.Some? then 1 + VarintSize32(|v.value|) + |v.value| else 0
  {
    MessageProofs.DataFieldLength(tag, v);
    if v.Some? {
      VarintSizeExact(|v.value|);
    }
  }

  lemma NumberFieldSize(tag: uint32, v: Option<uint32>)
    requires tag < 0x80
    ensures |EncodeAll(NumberField(tag, v))| == if v.Some? then 1 + VarintSize32(v.value) else 0
  {
    MessageProofs.NumberFieldLength(tag, v);
    if v.Some? {
      VarintSizeExact(v.value);
    }
  }

  /** A one-byte tag found by looking ahead is the tag a full read would find. */
  lemma LookAheadReads(input: Bytes, pos: nat, ahead: uint32)
    requires pos <= |input| && (ahead != 0 ==> ahead < 0x80 && pos > 0 && input[pos - 1] == ahead)
    ensures ahead != 0 ==> ReadVarint(input[pos - 1..], MAX_VARINT_BYTES) == Some(Read(ahead, 1))
  {
  }

  lemma PayloadFits(tag: uint32, s: Bytes)
    requires tag > 0 && ReadPayload(tag % 8, s).Some?
    ensures WellFormed(Record(tag, ReadPayload(tag % 8, s).value.value))
  {
  }
}
