/** Runs over any number of buffers: each is a first-in first-out queue, and growing is cheap. */
module BufferProofs {
  import opened Words
  import opened BufferStates

  // ----- single operations -----

  /** Compaction keeps every readable byte exactly when their number fits its 32-bit variable. */
  lemma CompactKeepsIff(s: State, least: nat, memory: bool)
    requires s.Valid()
    ensures Compact(s, least, memory).pending == s.pending
            <==> !Compacts(s, least, memory) || |s.pending| < TWO_32
  {
  }

  /** A scatter read keeps every byte exactly when the rest needed no memory or got it. */
  lemma ReadFDKeepsIff(s: State, chunk: seq<byte>, memory: bool)
    requires s.Valid()
    ensures ReadFD(s, chunk, memory).pending == s.pending + chunk
            <==> memory || |chunk| <= s.capacity - s.writeIdx
  {
    var writable := s.capacity - s.writeIdx;
    if memory {
      ReadFDAppends(s, chunk);
    } else if |chunk| <= writable {
      assert chunk[..|chunk|] == chunk;
    } else {
      assert |ReadFD(s, chunk, memory).pending| == |s.pending| + writable;
    }
  }

  /** A move takes from the source exactly what it gave to the destination if and only if the
      count fits the `int` it travels in, or the destination found no memory. */
  lemma MoveConservesIff(source: State, destination: State, n: nat, memory: bool)
    requires source.Valid() && destination.Valid()
    ensures var count := Copied(source, n);
            |Write(destination, source.pending[..count], memory).pending| - |destination.pending|
            == Advance(source, destination, n, memory)
            <==> count < 0x8000_0000 || !Reserved(destination, count, memory)
  {
    var count := Copied(source, n);
    assert count >= 0x8000_0000 ==> ToInt(count) < count;
  }

  /** With memory at hand a move of a count that an `int` holds takes that many bytes, or all
      there are, from the front of the source to the end of the destination. */
  lemma MoveTransfers(source: State, destination: State, n: nat)
    requires source.Valid() && destination.Valid() && n < 0x8000_0000
    ensures var count := if n <= |source.pending| then n else |source.pending|;
            && Write(destination, source.pending[..Copied(source, n)], true).pending
               == destination.pending + source.pending[..count]
            && Skip(source, Advance(source, destination, n, true)).pending == source.pending[count..]
  {
    WriteKeepsIff(destination, source.pending[..Copied(source, n)], true);
    assert ToInt(Copied(source, n)) == Copied(source, n);
    hide Write, ToInt;
  }

  /** Appending works exactly if there is space for the bytes or memory to make some. */
  lemma WriteKeepsIff(s: State, data: seq<byte>, memory: bool)
    requires s.Valid()
    ensures Write(s, data, memory).pending == s.pending + data
            <==> data == [] || memory || |data| <= s.capacity - s.writeIdx
  {
    if data == [] {
      assert s.pending + data == s.pending;
    } else {
      assert |s.pending + data| > |s.pending|;
    }
  }

  /** Growing multiplies the capacity by a power of two. */
  lemma {:induction false} DoubledIsPower(capacity: nat, needed: nat)
    requires capacity > 0
    ensures exists k: nat :: Doubled(capacity, needed) == capacity * Pow2(k)
    decreases if capacity < needed then needed - capacity else 0
  {
    if capacity < needed {
      DoubledIsPower(2 * capacity, needed);
      var k: nat :| Doubled(2 * capacity, needed) == 2 * capacity * Pow2(k);
      DoubledTwice(capacity, needed);
      OneMorePower(capacity, k);
      hide Doubled, Pow2;
      assert Doubled(capacity, needed) == capacity * Pow2(k + 1);
    } else {
      assert Doubled(capacity, needed) == capacity * Pow2(0);
    }
  }

  lemma OneMorePower(c: nat, k: nat)
    ensures 2 * c * Pow2(k) == c * Pow2(k + 1)
  {
    assert Pow2(k + 1) == 2 * Pow2(k);
    hide Pow2;
    Associate(c, 2, Pow2(k));
  }

  lemma DoubledTwice(capacity: nat, needed: nat)
    requires 0 < capacity < needed
    ensures Doubled(capacity, needed) == Doubled(2 * capacity, needed)
  {
  }

  /** With too little space and memory at hand, growing moves the readable bytes to the front of
      at least the space asked for, 32 bytes at first. */
  lemma GrowingMakesSpace(s: State, min: nat)
    requires s.Valid() && s.capacity - s.writeIdx < min
    ensures var t := BufferStates.Reserve(s, min, true);
            && t.readIdx == 0 && t.writeIdx == |t.pending| && t.pending == s.pending
            && min <= t.capacity - t.writeIdx
            && (s.capacity == 0 && min <= 32 ==> t.capacity == 32)
  {
  }

  /** While 32 bits can count its bytes, a buffer with enough free space and memory at hand is
      cut down to them. */
  lemma CompactFrees(s: State, least: nat, memory: bool)
    requires s.Valid() && s.capacity < TWO_32
    ensures var t := Compact(s, least, memory);
            if least <= s.capacity - s.writeIdx && (memory || s.pending == []) then
              t == State(|s.pending|, 0, |s.pending|, s.pending)
            else t == s
  {
  }

  /** Discarding gives the space of the bytes already read back to the writer. */
  lemma DiscardFrees(s: State)
    requires s.Valid()
    ensures var t := Discard(s);
            && t.pending == s.pending && t.capacity == s.capacity
            && t.readIdx == 0 && t.capacity - t.writeIdx == s.capacity - s.writeIdx + s.readIdx
  {
  }

  // ----- runs -----

  /** A buffer with its history: bytes put in, bytes taken out, bytes copied by reallocation,
      and whether a compaction has cut bytes off. */
  datatype Tracked = Tracked(buf: State, put: seq<byte>, taken: seq<byte>, copied: nat, cut: bool)

  datatype Op =
    | Put(i: nat, data: seq<byte>, memory: bool)
    | Take(i: nat, count: nat)
    | Move(from: nat, to: nat, count: nat, memory: bool)
    | Scatter(i: nat, chunk: seq<byte>, memory: bool)
    | Shrink(i: nat, least: nat, memory: bool)
    | Forget(i: nat)
    | Demand(i: nat, min: nat, memory: bool)

  /** An operation names buffers that exist; a move names two different ones. */
  predicate Legal(op: Op, n: nat) {
    if op.Move? then op.from < n && op.to < n && op.from != op.to else op.i < n
  }

  function Relocated(s: State, min: nat, memory: bool): nat
    requires s.Valid()
  {
    if s.capacity - s.writeIdx < min && memory then |s.pending| else 0
  }

  function TrackPut(t: Tracked, data: seq<byte>, memory: bool): Tracked
    requires t.buf.Valid()
  {
    t.(buf := Write(t.buf, data, memory),
       put := if Reserved(t.buf, |data|, memory) then t.put + data else t.put,
       copied := t.copied + Relocated(t.buf, |data|, memory))
  }

  function TrackTake(t: Tracked, count: nat): Tracked
    requires t.buf.Valid() && count <= |t.buf.pending|
  {
    t.(buf := Skip(t.buf, count), taken := t.taken + t.buf.pending[..count])
  }

  function TrackScatter(t: Tracked, chunk: seq<byte>, memory: bool): Tracked
    requires t.buf.Valid()
  {
    var writable := t.buf.capacity - t.buf.writeIdx;
    var n := Min(|chunk|, writable);
    var filled := t.(buf := t.buf.(writeIdx := t.buf.writeIdx + n, pending := t.buf.pending + chunk[..n]),
                     put := t.put + chunk[..n]);
    if |chunk| <= writable then filled else TrackPut(filled, chunk[writable..], memory)
  }

  function TrackShrink(t: Tracked, least: nat, memory: bool): Tracked
    requires t.buf.Valid()
  {
    if Compacts(t.buf, least, memory) then
      t.(buf := Compact(t.buf, least, memory), copied := t.copied + |t.buf.pending| % TWO_32,
         cut := t.cut || |t.buf.pending| >= TWO_32)
    else t
  }

  function TrackDemand(t: Tracked, min: nat, memory: bool): Tracked
    requires t.buf.Valid()
  {
    t.(buf := BufferStates.Reserve(t.buf, min, memory), copied := t.copied + Relocated(t.buf, min, memory))
  }

  /** What the scatter read of the history does to the buffer is what the buffer's own does. */
  lemma TrackScatterIsReadFD(t: Tracked, chunk: seq<byte>, memory: bool)
    requires t.buf.Valid()
    ensures TrackScatter(t, chunk, memory).buf == ReadFD(t.buf, chunk, memory)
  {
  }

  ghost predicate AllValid(sys: seq<Tracked>) {
    forall i | 0 <= i < |sys| :: sys[i].buf.Valid()
  }

  function Step(sys: seq<Tracked>, op: Op): seq<Tracked>
    requires AllValid(sys) && Legal(op, |sys|)
  {
    match op
    case Put(i, data, memory) => sys[i := TrackPut(sys[i], data, memory)]
    case Take(i, count) => if count <= |sys[i].buf.pending| then sys[i := TrackTake(sys[i], count)] else sys
    case Move(from, to, count, memory) =>
      var source, destination := sys[from], sys[to];
      var data := source.buf.pending[..Copied(source.buf, count)];
      sys[from := TrackTake(source, Advance(source.buf, destination.buf, count, memory))]
         [to := TrackPut(destination, data, memory)]
    case Scatter(i, chunk, memory) => sys[i := TrackScatter(sys[i], chunk, memory)]
    case Shrink(i, least, memory) => sys[i := TrackShrink(sys[i], least, memory)]
    case Forget(i) => sys[i := sys[i].(buf := Discard(sys[i].buf))]
    case Demand(i, min, memory) => sys[i := TrackDemand(sys[i], min, memory)]
  }

  /** Kept by every operation: bytes are missing exactly from the first cut on. */
  ghost predicate Queue(t: Tracked) {
    && t.buf.Valid()
    && (t.cut ==> |t.taken| + |t.buf.pending| < |t.put| && |t.put| >= TWO_32)
    && (!t.cut ==> t.put == t.taken + t.buf.pending)
  }

  lemma PutKeepsQueue(t: Tracked, data: seq<byte>, memory: bool)
    requires Queue(t)
    ensures Queue(TrackPut(t, data, memory))
  {
    assert t.taken + t.buf.pending + data == t.taken + (t.buf.pending + data);
  }

  lemma TakeKeepsQueue(t: Tracked, count: nat)
    requires Queue(t) && count <= |t.buf.pending|
    ensures Queue(TrackTake(t, count))
  {
    var p := t.buf.pending;
    assert t.taken + p == t.taken + p[..count] + p[count..];
  }

  lemma ScatterKeepsQueue(t: Tracked, chunk: seq<byte>, memory: bool)
    requires Queue(t)
    ensures Queue(TrackScatter(t, chunk, memory))
  {
    var writable := t.buf.capacity - t.buf.writeIdx;
    var n := Min(|chunk|, writable);
    assert t.taken + t.buf.pending + chunk[..n] == t.taken + (t.buf.pending + chunk[..n]);
    if |chunk| > writable {
      var filled := t.(buf := t.buf.(writeIdx := t.buf.writeIdx + n, pending := t.buf.pending + chunk[..n]),
                       put := t.put + chunk[..n]);
      PutKeepsQueue(filled, chunk[writable..], memory);
    }
  }

  lemma ShrinkKeepsQueue(t: Tracked, least: nat, memory: bool)
    requires Queue(t)
    ensures Queue(TrackShrink(t, least, memory))
  {
    CompactKeepsIff(t.buf, least, memory);
    assert |t.put| >= |t.taken| + |t.buf.pending|;
  }

  ghost predicate Queues(sys: seq<Tracked>) {
    forall i | 0 <= i < |sys| :: Queue(sys[i])
  }

  lemma StepKeepsQueues(sys: seq<Tracked>, op: Op)
    requires Queues(sys) && Legal(op, |sys|)
    ensures AllValid(sys) && |Step(sys, op)| == |sys| && Queues(Step(sys, op))
  {
    match op
    case Put(i, data, memory) => PutKeepsQueue(sys[i], data, memory);
    case Take(i, count) => if count <= |sys[i].buf.pending| { TakeKeepsQueue(sys[i], count); }
    case Move(from, to, count, memory) =>
      var source, destination := sys[from], sys[to];
      TakeKeepsQueue(source, Advance(source.buf, destination.buf, count, memory));
      PutKeepsQueue(destination, source.buf.pending[..Copied(source.buf, count)], memory);
    case Scatter(i, chunk, memory) => ScatterKeepsQueue(sys[i], chunk, memory);
    case Shrink(i, least, memory) => ShrinkKeepsQueue(sys[i], least, memory);
    case Forget(i) =>
    case Demand(i, min, memory) => ReserveValid(sys[i].buf, min, memory);
  }

  const NEW := Tracked(EMPTY, [], [], 0, false)

  lemma QueuesAreValid(sys: seq<Tracked>)
    requires Queues(sys)
    ensures AllValid(sys)
  {
  }

  function Fresh(n: nat): seq<Tracked> {
    seq(n, _ => NEW)
  }

  ghost predicate AllLegal(ops: seq<Op>, n: nat) {
    forall j | 0 <= j < |ops| :: Legal(ops[j], n)
  }

  /** A run of `n` new buffers. */
  ghost function Run(n: nat, ops: seq<Op>): (sys: seq<Tracked>)
    requires AllLegal(ops, n)
    ensures |sys| == n && Queues(sys)
  {
    if |ops| == 0 then Fresh(n)
    else
      var before := Run(n, ops[..|ops| - 1]);
      StepKeepsQueues(before, ops[|ops| - 1]);
      Step(before, ops[|ops| - 1])
  }

  /** The operation compacts buffer `i` while that holds more bytes than 32 bits can count. */
  ghost predicate Cuts(sys: seq<Tracked>, op: Op, i: nat)
    requires AllValid(sys) && i < |sys|
  {
    op.Shrink? && op.i == i && Compacts(sys[i].buf, op.least, op.memory) && |sys[i].buf.pending| >= TWO_32
  }

  /** How an operation of a run changes the flag of buffer `i`. */
  lemma StepCuts(sys: seq<Tracked>, op: Op, i: nat)
    requires AllValid(sys) && Legal(op, |sys|) && i < |sys|
    ensures i < |Step(sys, op)| && Step(sys, op)[i].cut == (sys[i].cut || Cuts(sys, op, i))
  {
    hide Compacts, Write, Skip, Discard, BufferStates.Reserve, Compact, Relocated;
  }

  /** Operation `j` of the run cut buffer `i`. */
  ghost predicate CutAt(n: nat, ops: seq<Op>, i: nat, j: nat)
    requires AllLegal(ops, n) && i < n && j < |ops|
  {
    Cuts(Run(n, ops[..j]), ops[j], i)
  }

  lemma CutAtPrefix(n: nat, ops: seq<Op>, i: nat, j: nat)
    requires AllLegal(ops, n) && i < n && j < |ops| - 1
    ensures CutAt(n, ops[..|ops| - 1], i, j) == CutAt(n, ops, i, j)
  {
    hide Cuts, Run;
    assert ops[..|ops| - 1][..j] == ops[..j];
  }

  lemma LastCut(n: nat, ops: seq<Op>, i: nat)
    requires AllLegal(ops, n) && i < n && |ops| > 0
    ensures Run(n, ops)[i].cut == (Run(n, ops[..|ops| - 1])[i].cut || CutAt(n, ops, i, |ops| - 1))
  {
    var before := Run(n, ops[..|ops| - 1]);
    QueuesAreValid(before);
    StepCuts(before, ops[|ops| - 1], i);
    hide Cuts, Step, Queue;
  }

  lemma {:induction false} RunCuts(n: nat, ops: seq<Op>, i: nat)
    requires AllLegal(ops, n) && i < n
    ensures Run(n, ops)[i].cut <==> exists j :: 0 <= j < |ops| && CutAt(n, ops, i, j)
  {
    hide CutAt, Step, Queue;
    if |ops| > 0 {
      var before := ops[..|ops| - 1];
      RunCuts(n, before, i);
      LastCut(n, ops, i);
      if j: nat :| j < |before| && CutAt(n, before, i, j) {
        CutAtPrefix(n, ops, i, j);
      }
      if j: nat :| j < |ops| - 1 && CutAt(n, ops, i, j) {
        CutAtPrefix(n, ops, i, j);
      }
    }
  }

  /** First in, first out: over every interleaving the indices stay ordered, and what was
      taken from a buffer followed by what is still readable is what was put in, if and only
      if the buffer was never compacted while it held 2^32 bytes or more. */
  lemma BufferIsFifo(n: nat, ops: seq<Op>, i: nat)
    requires AllLegal(ops, n) && i < n
    ensures var t := Run(n, ops)[i];
            && t.buf.readIdx <= t.buf.writeIdx <= t.buf.capacity
            && (t.taken + t.buf.pending == t.put
                <==> forall j | 0 <= j < |ops| :: !CutAt(n, ops, i, j))
            && (|t.put| < TWO_32 ==> t.taken + t.buf.pending == t.put)
  {
    RunCuts(n, ops, i);
    hide CutAt;
    var t := Run(n, ops)[i];
    assert Queue(t);
    assert t.cut ==> |t.taken + t.buf.pending| < |t.put|;
  }

  // ----- the cost of growing -----

  ghost predicate CopiedWithinCapacity(t: Tracked) {
    t.buf.Valid() && t.copied <= t.buf.capacity
  }

  /** A capacity never exceeds twice the bytes ever put in, above the initial 32. */
  ghost predicate CapacityWithinDemand(t: Tracked) {
    && t.buf.Valid()
    && t.buf.writeIdx <= |t.put|
    && t.buf.capacity <= Max(DEFAULT_BUFFER_SIZE, 2 * |t.put|)
  }

  /** A reallocation at least doubles the capacity, so it pays for the bytes it copies. */
  lemma ReallocationPays(s: State, min: nat, memory: bool, copied: nat)
    requires s.Valid() && copied <= s.capacity
    ensures copied + Relocated(s, min, memory) <= BufferStates.Reserve(s, min, memory).capacity
  {
    hide Doubled;
    var _ := NewCapacity(s.capacity, s.writeIdx + min);
  }

  lemma PutCost(t: Tracked, data: seq<byte>, memory: bool)
    requires CopiedWithinCapacity(t)
    ensures CopiedWithinCapacity(TrackPut(t, data, memory))
    ensures CapacityWithinDemand(t) ==> CapacityWithinDemand(TrackPut(t, data, memory))
  {
    ReallocationPays(t.buf, |data|, memory, t.copied);
  }

  lemma ScatterCost(t: Tracked, chunk: seq<byte>, memory: bool)
    requires CopiedWithinCapacity(t)
    ensures CopiedWithinCapacity(TrackScatter(t, chunk, memory))
    ensures CapacityWithinDemand(t) ==> CapacityWithinDemand(TrackScatter(t, chunk, memory))
  {
    hide TrackPut;
    var writable := t.buf.capacity - t.buf.writeIdx;
    var n := Min(|chunk|, writable);
    if |chunk| > writable {
      var filled := t.(buf := t.buf.(writeIdx := t.buf.writeIdx + n, pending := t.buf.pending + chunk[..n]),
                       put := t.put + chunk[..n]);
      PutCost(filled, chunk[writable..], memory);
    }
  }

  lemma StepCost(sys: seq<Tracked>, op: Op, i: nat)
    requires AllValid(sys) && Legal(op, |sys|) && !op.Shrink? && i < |sys|
    requires CopiedWithinCapacity(sys[i])
    ensures CopiedWithinCapacity(Step(sys, op)[i])
    ensures !op.Demand? && CapacityWithinDemand(sys[i]) ==> CapacityWithinDemand(Step(sys, op)[i])
  {
    match op
    case Put(_, data, memory) => PutCost(sys[i], data, memory);
    case Take(_, _) =>
    case Move(from, to, count, memory) =>
      if i == to {
        PutCost(sys[to], sys[from].buf.pending[..Copied(sys[from].buf, count)], memory);
      }
    case Scatter(_, chunk, memory) => ScatterCost(sys[i], chunk, memory);
    case Forget(_) =>
    case Demand(_, min, memory) => ReallocationPays(sys[i].buf, min, memory, sys[i].copied);
  }

  lemma NewIsEmpty(n: nat, ops: seq<Op>, i: nat)
    requires AllLegal(ops, n) && i < n && |ops| == 0
    ensures var t := Run(n, ops)[i]; t.buf.Valid() && t.buf.capacity == 0 && t.copied == 0
  {
    hide Step, Queues, AllValid;
    assert Run(n, ops) == Fresh(n);
    hide Run;
    assert Fresh(n)[i] == NEW;
  }

  lemma NewCost(t: Tracked)
    requires t.buf.Valid() && t.buf.capacity == 0 && t.copied == 0
    ensures CopiedWithinCapacity(t) && CapacityWithinDemand(t)
  {
  }

  /** Without compaction, all the copying that growth ever did fits in the capacity reached;
      without explicit reservations that is at most twice the bytes ever written. */
  lemma {:induction false} GrowthIsAmortized(n: nat, ops: seq<Op>, i: nat)
    requires AllLegal(ops, n) && i < n
    requires forall j | 0 <= j < |ops| :: !ops[j].Shrink?
    ensures var t := Run(n, ops)[i];
            && t.copied <= t.buf.capacity
            && ((forall j | 0 <= j < |ops| :: !ops[j].Demand?) ==>
                  t.copied <= t.buf.capacity <= Max(DEFAULT_BUFFER_SIZE, 2 * |t.put|))
  {
    CostInvariant(n, ops, i);
  }

  lemma {:induction false} CostInvariant(n: nat, ops: seq<Op>, i: nat)
    requires AllLegal(ops, n) && i < n
    requires forall j | 0 <= j < |ops| :: !ops[j].Shrink?
    ensures CopiedWithinCapacity(Run(n, ops)[i])
    ensures (forall j | 0 <= j < |ops| :: !ops[j].Demand?) ==> CapacityWithinDemand(Run(n, ops)[i])
  {
    hide CopiedWithinCapacity, CapacityWithinDemand, Step, AllValid, Queues;
    if |ops| > 0 {
      var before := ops[..|ops| - 1];
      CostInvariant(n, before, i);
      QueuesAreValid(Run(n, before));
      StepCost(Run(n, before), ops[|ops| - 1], i);
    } else {
      NewIsEmpty(n, ops, i);
      NewCost(Run(n, ops)[i]);
    }
  }
}
