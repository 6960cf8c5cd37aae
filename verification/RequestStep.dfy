/** The client a request step sends through, and the step's reaction to replies. The network's
    answer to each send, and what a callback tries to send, are inputs. */
module RequestStep {
  import opened Words

  const MAX_REQ_COUNT := 100
  const CMD_DP_REQ_QUOT_CONFIG: uint32 := 20001
  const CMD_DP_RSP_QUOT_CONFIG: uint32 := 20002
  const CMD_REQ_ACCESS_TO_LOGIC: uint32 := 40001
  const CMD_RSP_ACCESS_TO_LOGIC: uint32 := 40002

  datatype Client = Client(reqCount: int, reqSum: uint32, dproxyCmd: uint32, dataProxyEvent: bool)

  const NEW := Client(0, 0, 0, true)

  /** A call of `SendToDataProxy` or `AccessToLogic`; `network` is whether the send itself succeeds. */
  datatype Attempt =
    | Storage(cmd: uint32, bufferEmpty: bool, network: bool)
    | Logic(cmd: uint32, bodySize: nat, network: bool)

  /** A request under way, by the command its reply is to be labelled with. */
  datatype Request = Request(storage: bool, cmd: uint32)

  /** Which handler a reply goes to, and with which response code. */
  datatype Dispatch = Dispatch(storageHandler: bool, response: uint32)

  function Next(n: uint32): uint32 {
    (n + 1) % TWO_32
  }

  /** Attempts with an argument error do not count; all others do, successful or not. */
  predicate Counts(a: Attempt) {
    match a
    case Storage(_, bufferEmpty, _) => !bufferEmpty
    case Logic(cmd, bodySize, _) => cmd != 0 && bodySize != 0
  }

  predicate Sends(c: Client, a: Attempt) {
    && Counts(a)
    && c.reqSum < MAX_REQ_COUNT
    && a.network
    && (a.Storage? ==> a.cmd % 2 != 0 && (c.reqCount > 0 ==> c.dproxyCmd == a.cmd))
  }

  function RequestOf(a: Attempt): Request {
    if a.Storage? then Request(true, a.cmd) else Request(false, CMD_REQ_ACCESS_TO_LOGIC)
  }

  function Try(c: Client, a: Attempt): Client {
    var counted := if Counts(a) then c.(reqSum := Next(c.reqSum)) else c;
    if !Sends(c, a) then counted
    else if a.Storage? then counted.(reqCount := c.reqCount + 1, dproxyCmd := a.cmd)
    else counted.(reqCount := c.reqCount + 1, dproxyCmd := CMD_REQ_ACCESS_TO_LOGIC, dataProxyEvent := false)
  }

  function TryAll(c: Client, attempts: seq<Attempt>): Client {
    if |attempts| == 0 then c else Try(TryAll(c, attempts[..|attempts| - 1]), attempts[|attempts| - 1])
  }

  /** How the client labels the next reply it handles. */
  function DispatchOf(c: Client): Dispatch {
    Dispatch(c.dataProxyEvent, Next(c.dproxyCmd))
  }

  /** The handlers know one response code each; any other is an error. */
  predicate Known(d: Dispatch) {
    d.response == if d.storageHandler then CMD_DP_RSP_QUOT_CONFIG else CMD_RSP_ACCESS_TO_LOGIC
  }

  /** The client as the callback finds it. */
  function Answered(c: Client): Client {
    c.(reqCount := c.reqCount - 1, dataProxyEvent := true)
  }

  function Handle(c: Client, callback: seq<Attempt>): Client {
    TryAll(Answered(c), if Known(DispatchOf(c)) then callback else [])
  }

  datatype Status = Running | Completed | Fault

  function StatusAfter(c: Client, failed: bool): Status {
    if failed then Fault else if c.reqCount <= 0 then Completed else Running
  }

  class DataProxyClient {
    var reqCount: int
    var reqSum: uint32
    var dproxyCmd: uint32
    var dataProxyEvent: bool

    constructor ()
      ensures View() == NEW
    {
      reqCount, reqSum, dproxyCmd, dataProxyEvent := 0, 0, 0, true;
    }

    function View(): Client
      reads this
    {
      Client(reqCount, reqSum, dproxyCmd, dataProxyEvent)
    }

    /** `m_uiReqSum++ >= MAX_REQ_COUNT` */
    method Exhausted() returns (r: bool)
      modifies this`reqSum
      ensures r == (old(reqSum) >= MAX_REQ_COUNT) && reqSum == Next(old(reqSum))
    {
      r := reqSum >= MAX_REQ_COUNT;
      reqSum := Next(reqSum);
    }

    method SendToDataProxy(cmd: uint32, bufferEmpty: bool, network: bool) returns (ok: bool)
      modifies this
      ensures View() == Try(old(View()), Storage(cmd, bufferEmpty, network))
      ensures ok == Sends(old(View()), Storage(cmd, bufferEmpty, network))
    {
      if bufferEmpty {
        return false;
      }
      var exhausted := Exhausted();
      if exhausted {
        return false;
      }
      if cmd % 2 == 0 {
        return false;
      }
      if reqCount > 0 && dproxyCmd != cmd {
        return false;
      }
      if !network {
        return false;
      }
      dproxyCmd := cmd;
      reqCount := reqCount + 1;
      ok := true;
    }

    method AccessToLogic(cmd: uint32, bodySize: nat, network: bool) returns (ok: bool)
      modifies this
      ensures View() == Try(old(View()), Logic(cmd, bodySize, network))
      ensures ok == Sends(old(View()), Logic(cmd, bodySize, network))
    {
      if cmd == 0 || bodySize == 0 {
        return false;
      }
      var exhausted := Exhausted();
      if exhausted {
        return false;
      }
      if !network {
        return false;
      }
      reqCount := reqCount + 1;
      dataProxyEvent := false;
      dproxyCmd := CMD_REQ_ACCESS_TO_LOGIC;
      ok := true;
    }

    method QuotConfigGet(bufferEmpty: bool, network: bool) returns (ok: bool)
      modifies this
      ensures View() == Try(old(View()), Storage(20001, bufferEmpty, network))
      ensures ok == Sends(old(View()), Storage(20001, bufferEmpty, network))
    {
      ok := SendToDataProxy(CMD_DP_REQ_QUOT_CONFIG, bufferEmpty, network);
    }

    /** The step's next sub-step, or its callback, making its attempts. */
    method Attempts(attempts: seq<Attempt>)
      modifies this
      ensures View() == TryAll(old(View()), attempts)
    {
      for i := 0 to |attempts|
        invariant View() == TryAll(old(View()), attempts[..i])
      {
        assert attempts[..i + 1][..i] == attempts[..i];
        match attempts[i]
        case Storage(cmd, bufferEmpty, network) =>
          var _ := SendToDataProxy(cmd, bufferEmpty, network);
        case Logic(cmd, bodySize, network) =>
          var _ := AccessToLogic(cmd, bodySize, network);
      }
      assert attempts[..|attempts|] == attempts;
    }

    /** Handles one reply: the flag picks the handler, the handler runs the callback. */
    method HandleEvent(response: uint32, callback: seq<Attempt>) returns (known: bool)
      requires response == Next(dproxyCmd)
      modifies this
      ensures View() == Handle(old(View()), callback)
      ensures known == Known(DispatchOf(old(View())))
    {
      reqCount := reqCount - 1;
      var event := dataProxyEvent;
      dataProxyEvent := true;
      known := if event then response == CMD_DP_RSP_QUOT_CONFIG else response == CMD_RSP_ACCESS_TO_LOGIC;
      if known {
        Attempts(callback);
      }
    }
  }

  /** The step: all its sub-steps run under one sequence number, through one client. */
  class StepDataProxyEvent {
    const client: DataProxyClient

    constructor ()
      ensures fresh(client) && client.View() == NEW
    {
      client := new DataProxyClient();
    }

    /** `failed`: initialization failed or the first sub-step returned an error. */
    method Emit(attempts: seq<Attempt>, failed: bool) returns (status: Status)
      modifies client
      ensures client.View() == TryAll(old(client.View()), attempts)
      ensures status == StatusAfter(client.View(), failed)
    {
      client.Attempts(attempts);
      if failed {
        return Fault;
      }
      if client.reqCount <= 0 {
        return Completed;
      }
      status := Running;
    }

    /** `failed`: the reply reports an error, does not parse, or is a timeout. */
    method CallbackLogic(failed: bool, callback: seq<Attempt>) returns (status: Status)
      modifies client
      ensures client.View() == Handle(old(client.View()), callback)
      ensures status == StatusAfter(client.View(), failed || !Known(DispatchOf(old(client.View()))))
    {
      var known := client.HandleEvent(Next(client.dproxyCmd), callback);
      if failed || !known {
        return Fault;
      }
      if client.reqCount <= 0 {
        return Completed;
      }
      status := Running;
    }
  }
}

/** What holds in every run of a step. */
module RequestStepProofs {
  import opened Words
  import opened RequestStep

  /** The client with what an observer of the network sees: the requests under way, how many
      were ever sent, how many attempts counted, how many replies were handled. */
  datatype System = System(client: Client, outstanding: seq<Request>, sent: nat, counted: nat, replies: nat,
                           status: Status)

  datatype Event =
    | Start(attempts: seq<Attempt>, failed: bool)
    | Reply(index: nat, failed: bool, attempts: seq<Attempt>)
    | Timeout(attempts: seq<Attempt>)

  function SystemTry(s: System, a: Attempt): System {
    s.(client := Try(s.client, a),
       outstanding := if Sends(s.client, a) then s.outstanding + [RequestOf(a)] else s.outstanding,
       sent := if Sends(s.client, a) then s.sent + 1 else s.sent,
       counted := if Counts(a) then s.counted + 1 else s.counted)
  }

  function SystemTryAll(s: System, attempts: seq<Attempt>): System {
    if |attempts| == 0 then s
    else SystemTry(SystemTryAll(s, attempts[..|attempts| - 1]), attempts[|attempts| - 1])
  }

  function Without(requests: seq<Request>, i: nat): seq<Request>
    requires i < |requests|
  {
    requests[..i] + requests[i + 1..]
  }

  /** The system as the callback of the reply to request `i` finds it. */
  function AfterReply(s: System, i: nat): System
    requires i < |s.outstanding|
  {
    s.(client := Answered(s.client), outstanding := Without(s.outstanding, i), replies := s.replies + 1)
  }

  /** A callback runs only for a response code its handler knows. */
  function Callback(c: Client, attempts: seq<Attempt>): seq<Attempt> {
    if Known(DispatchOf(c)) then attempts else []
  }

  /** Replies come in any order; a timeout answers nothing but is handled like a reply. */
  predicate Legal(s: System, e: Event) {
    match e
    case Start(_, _) => true
    case Reply(index, _, _) => s.status == Running && index < |s.outstanding|
    case Timeout(_) => s.status == Running
  }

  function React(s: System, e: Event): System
    requires Legal(s, e)
  {
    match e
    case Start(attempts, failed) =>
      var t := SystemTryAll(s, attempts);
      t.(status := StatusAfter(t.client, failed))
    case Reply(index, failed, attempts) =>
      var t := SystemTryAll(AfterReply(s, index), Callback(s.client, attempts));
      t.(status := StatusAfter(t.client, failed || !Known(DispatchOf(s.client))))
    case Timeout(attempts) =>
      var t := SystemTryAll(s.(client := Answered(s.client)), Callback(s.client, attempts));
      t.(status := Fault)
  }

  const BEGIN := System(NEW, [], 0, 0, 0, Running)

  /** A run: it starts once, then handles replies and timeouts while the step is running. */
  ghost predicate LegalRun(events: seq<Event>)
    decreases |events|, 0
  {
    |events| > 0 ==>
      && LegalRun(events[..|events| - 1])
      && Legal(Run(events[..|events| - 1]), events[|events| - 1])
      && (events[|events| - 1].Start? <==> |events| == 1)
  }

  ghost function Run(events: seq<Event>): System
    requires LegalRun(events)
    decreases |events|, 1
  {
    if |events| == 0 then BEGIN else React(Run(events[..|events| - 1]), events[|events| - 1])
  }

  /** The model of a run drives the client exactly as the step's methods do. */
  lemma {:induction false} ClientFollows(s: System, attempts: seq<Attempt>)
    ensures SystemTryAll(s, attempts).client == TryAll(s.client, attempts)
  {
    if |attempts| > 0 {
      ClientFollows(s, attempts[..|attempts| - 1]);
    }
  }

  /** Its events leave the client and the status that the step's methods leave. */
  lemma ReactFollows(s: System, e: Event)
    requires Legal(s, e)
    ensures match e
            case Start(attempts, failed) =>
              && React(s, e).client == TryAll(s.client, attempts)
              && React(s, e).status == StatusAfter(React(s, e).client, failed)
            case Reply(_, failed, attempts) =>
              && React(s, e).client == Handle(s.client, attempts)
              && React(s, e).status == StatusAfter(React(s, e).client, failed || !Known(DispatchOf(s.client)))
            case Timeout(attempts) =>
              && React(s, e).client == Handle(s.client, attempts)
              && React(s, e).status == StatusAfter(React(s, e).client, true)
  {
    match e
    case Start(attempts, _) => ClientFollows(s, attempts);
    case Reply(index, _, attempts) => ClientFollows(AfterReply(s, index), Callback(s.client, attempts));
    case Timeout(attempts) =>
      ClientFollows(s.(client := Answered(s.client)), Callback(s.client, attempts));
  }

  // ----- the budget -----

  function AtMost(n: nat, bound: nat): nat {
    if n <= bound then n else bound
  }

  /** Sent at most 100 in each full cycle of the 32-bit attempt counter. */
  ghost predicate WithinBudget(s: System) {
    && s.client.reqSum == s.counted % TWO_32
    && s.sent <= MAX_REQ_COUNT * (s.counted / TWO_32) + AtMost(s.client.reqSum, MAX_REQ_COUNT)
    && s.replies + |s.outstanding| == s.sent
  }

  lemma CountUp(n: nat)
    ensures if n % TWO_32 == TWO_32 - 1 then (n + 1) % TWO_32 == 0 && (n + 1) / TWO_32 == n / TWO_32 + 1
            else (n + 1) % TWO_32 == n % TWO_32 + 1 && (n + 1) / TWO_32 == n / TWO_32
  {
  }

  lemma TryWithinBudget(s: System, a: Attempt)
    requires WithinBudget(s)
    ensures WithinBudget(SystemTry(s, a))
  {
    CountUp(s.counted);
  }

  lemma {:induction false} TryAllWithinBudget(s: System, attempts: seq<Attempt>)
    requires WithinBudget(s)
    ensures WithinBudget(SystemTryAll(s, attempts))
    ensures SystemTryAll(s, attempts).counted <= s.counted + |attempts|
  {
    hide WithinBudget;
    if |attempts| > 0 {
      TryAllWithinBudget(s, attempts[..|attempts| - 1]);
      TryWithinBudget(SystemTryAll(s, attempts[..|attempts| - 1]), attempts[|attempts| - 1]);
    }
  }

  lemma ReactWithinBudget(s: System, e: Event)
    requires WithinBudget(s) && Legal(s, e)
    ensures WithinBudget(React(s, e))
  {
    match e
    case Start(attempts, _) => TryAllWithinBudget(s, attempts);
    case Reply(index, _, attempts) =>
      TryAllWithinBudget(AfterReply(s, index), Callback(s.client, attempts));
    case Timeout(attempts) =>
      TryAllWithinBudget(s.(client := Answered(s.client)), Callback(s.client, attempts));
  }

  /** Whatever its callbacks attempt, a step sends at most 100 requests for every 2^32
      attempts, and each reply it handles is one to a request it sent. */
  lemma {:induction false} SendsWithinBudget(events: seq<Event>)
    requires LegalRun(events)
    ensures WithinBudget(Run(events))
    ensures Run(events).counted <= TWO_32 ==> Run(events).replies <= Run(events).sent <= MAX_REQ_COUNT
  {
    if |events| > 0 {
      SendsWithinBudget(events[..|events| - 1]);
      hide React;
      ReactWithinBudget(Run(events[..|events| - 1]), events[|events| - 1]);
    }
  }

  /** The events of a run are its start, its replies, and perhaps a timeout, which ends it. */
  lemma {:induction false} EventsCounted(events: seq<Event>)
    requires LegalRun(events)
    ensures var s := Run(events);
            |events| <= s.replies + 2 && (s.status == Running ==> |events| <= s.replies + 1)
  {
    hide SystemTryAll;
    if |events| > 0 {
      EventsCounted(events[..|events| - 1]);
      RepliesCounted(Run(events[..|events| - 1]), events[|events| - 1]);
    }
  }

  lemma RepliesCounted(s: System, e: Event)
    requires Legal(s, e)
    ensures React(s, e).replies == if e.Reply? then s.replies + 1 else s.replies
    ensures e.Timeout? ==> React(s, e).status != Running
  {
    match e
    case Start(attempts, _) => RepliesKept(s, attempts);
    case Reply(index, _, attempts) => RepliesKept(AfterReply(s, index), Callback(s.client, attempts));
    case Timeout(attempts) => RepliesKept(s.(client := Answered(s.client)), Callback(s.client, attempts));
  }

  lemma {:induction false} RepliesKept(s: System, attempts: seq<Attempt>)
    ensures SystemTryAll(s, attempts).replies == s.replies
  {
    if |attempts| > 0 {
      RepliesKept(s, attempts[..|attempts| - 1]);
    }
  }

  /** Every run ends: a step that has made at most 2^32 attempts has seen at most 102 events,
      its start, 100 replies and a timeout. */
  lemma StepTerminates(events: seq<Event>)
    requires LegalRun(events) && Run(events).counted <= TWO_32
    ensures |events| <= MAX_REQ_COUNT + 2
  {
    SendsWithinBudget(events);
    EventsCounted(events);
  }

  /** Requests under way plus the budget that is left. */
  function Measure(s: System): nat {
    |s.outstanding| + (MAX_REQ_COUNT - AtMost(s.client.reqSum, MAX_REQ_COUNT))
  }

  lemma TryKeepsMeasure(s: System, a: Attempt)
    requires s.client.reqSum < TWO_32 - 1
    ensures Measure(SystemTry(s, a)) <= Measure(s)
  {
  }

  lemma {:induction false} TryAllKeepsMeasure(s: System, attempts: seq<Attempt>)
    requires WithinBudget(s) && s.counted + |attempts| < TWO_32
    ensures Measure(SystemTryAll(s, attempts)) <= Measure(s)
  {
    if |attempts| > 0 {
      var front := attempts[..|attempts| - 1];
      TryAllKeepsMeasure(s, front);
      TryAllWithinBudget(s, front);
      TryKeepsMeasure(SystemTryAll(s, front), attempts[|attempts| - 1]);
    }
  }

  /** Handling a reply strictly lowers the measure, even when its callback sends again, as long
      as the 32-bit counter of attempts has not gone round. */
  lemma ReplyLowersMeasure(s: System, e: Event)
    requires WithinBudget(s) && e.Reply? && Legal(s, e) && s.counted + |e.attempts| < TWO_32
    ensures Measure(React(s, e)) < Measure(s)
  {
    hide SystemTryAll;
    TryAllKeepsMeasure(AfterReply(s, e.index), Callback(s.client, e.attempts));
  }

  // ----- which reply belongs to which request -----

  /** All requests under way carry the client's current label, so each reply will be handled
      as the answer it is; a logic request is under way alone. */
  ghost predicate Correlated(s: System) {
    && s.client.reqCount == |s.outstanding|
    && (forall r | r in s.outstanding :: r == Request(s.client.dataProxyEvent, s.client.dproxyCmd))
    && (!s.client.dataProxyEvent ==> |s.outstanding| == 1 && s.client.dproxyCmd == CMD_REQ_ACCESS_TO_LOGIC)
  }

  /** What a caller can check first: logic is accessed only when nothing is under way, and a
      storage command never shares the logic access code while one is. */
  predicate Proper(c: Client, a: Attempt) {
    if a.Logic? then c.reqCount <= 0 else c.dataProxyEvent || a.cmd != CMD_REQ_ACCESS_TO_LOGIC
  }

  /** A send keeps the labels right if and only if it was a proper one. */
  lemma SendKeepsCorrelatedIff(s: System, a: Attempt)
    requires Correlated(s)
    ensures Correlated(SystemTry(s, a)) <==> !Sends(s.client, a) || Proper(s.client, a)
  {
    var t := SystemTry(s, a);
    if Sends(s.client, a) {
      assert RequestOf(a) in t.outstanding;
      assert forall r | r in t.outstanding :: r in s.outstanding || r == RequestOf(a);
      if |s.outstanding| > 0 {
        assert s.outstanding[0] in t.outstanding && s.outstanding[0] in s.outstanding;
      }
    }
  }

  ghost predicate AllProper(c: Client, attempts: seq<Attempt>) {
    forall i | 0 <= i < |attempts| ::
      Sends(TryAll(c, attempts[..i]), attempts[i]) ==> Proper(TryAll(c, attempts[..i]), attempts[i])
  }

  lemma {:induction false} AttemptsKeepCorrelated(s: System, attempts: seq<Attempt>)
    requires Correlated(s) && AllProper(s.client, attempts)
    ensures Correlated(SystemTryAll(s, attempts))
  {
    hide Correlated, Sends, Proper, Try;
    if |attempts| > 0 {
      var front, last := attempts[..|attempts| - 1], attempts[|attempts| - 1];
      assert forall i | 0 <= i < |front| :: front[..i] == attempts[..i] && front[i] == attempts[i];
      AttemptsKeepCorrelated(s, front);
      ClientFollows(s, front);
      SendKeepsCorrelatedIff(SystemTryAll(s, front), last);
    }
  }

  /** The attempts an event makes, from the client state it makes them in. */
  ghost predicate ProperEvent(s: System, e: Event) {
    match e
    case Start(attempts, _) => AllProper(s.client, attempts)
    case Reply(_, _, attempts) => AllProper(Answered(s.client), Callback(s.client, attempts))
    case Timeout(_) => true
  }

  /** A reply goes to the handler of the request it answers, with that request's response
      code, and handling it keeps the labels of the others right. */
  lemma ReplyIsCorrelated(s: System, e: Event)
    requires Correlated(s) && e.Reply? && Legal(s, e) && ProperEvent(s, e)
    ensures var r := s.outstanding[e.index]; DispatchOf(s.client) == Dispatch(r.storage, Next(r.cmd))
    ensures Correlated(React(s, e))
  {
    assert s.outstanding[e.index] in s.outstanding;
    var rest := Without(s.outstanding, e.index);
    var answered := AfterReply(s, e.index);
    assert forall r | r in rest :: r in s.outstanding;
    assert Correlated(answered);
    hide SystemTryAll;
    AttemptsKeepCorrelated(answered, Callback(s.client, e.attempts));
  }

  /** All sends of the run are proper, and no timeout has ended it. */
  ghost predicate ProperRun(events: seq<Event>)
    requires LegalRun(events)
  {
    |events| > 0 ==>
      && ProperRun(events[..|events| - 1])
      && ProperEvent(Run(events[..|events| - 1]), events[|events| - 1])
      && !events[|events| - 1].Timeout?
  }

  /** Reply correlation, over every run in which sends are proper: the counter equals
      requests sent minus replies handled, requests under way share the current label, and
      unless the step failed it is running exactly while a request is under way. */
  lemma {:induction false} RunIsCorrelated(events: seq<Event>)
    requires LegalRun(events) && ProperRun(events) && |events| > 0
    ensures Correlated(Run(events))
    ensures var s := Run(events);
            && s.client.reqCount == s.sent - s.replies
            && (s.status == Fault || (s.status == Running <==> s.outstanding != []))
  {
    hide React, SystemTryAll, ProperEvent;
    var before, e := events[..|events| - 1], events[|events| - 1];
    SendsWithinBudget(events);
    if |events| == 1 {
      StartIsCorrelated(e);
    } else {
      RunIsCorrelated(before);
      ReplyIsCorrelated(Run(before), e);
      StatusOfReact(Run(before), e);
    }
  }

  lemma StartIsCorrelated(e: Event)
    requires e.Start? && ProperEvent(BEGIN, e)
    ensures Legal(BEGIN, e) && Correlated(React(BEGIN, e))
    ensures var s := React(BEGIN, e); s.status == Fault || (s.status == Running <==> s.outstanding != [])
  {
    hide SystemTryAll;
    AttemptsKeepCorrelated(BEGIN, e.attempts);
  }

  lemma StatusOfReact(s: System, e: Event)
    requires e.Reply? && Legal(s, e)
    ensures React(s, e).status == Fault
            || React(s, e).status == if React(s, e).client.reqCount <= 0 then Completed else Running
  {
    hide SystemTryAll;
  }

  /** Without the discipline replies are misread: of two logic requests sent together, the
      second reply goes to the storage handler, which does not know it, and the step fails. */
  lemma TwoLogicRequestsAreMisread(cmd: uint32, size: nat)
    requires cmd != 0 && size != 0
    ensures var a := Logic(cmd, size, true);
            var s1 := React(BEGIN, Start([a, a], false));
            && s1.status == Running && |s1.outstanding| == 2
            && var s2 := React(s1, Reply(0, false, []));
               && s2.status == Running && s2.outstanding == [Request(false, CMD_REQ_ACCESS_TO_LOGIC)]
               && DispatchOf(s2.client) == Dispatch(true, CMD_RSP_ACCESS_TO_LOGIC)
               && React(s2, Reply(0, false, [])).status == Fault
  {
    var a := Logic(cmd, size, true);
    var t1 := SystemTry(BEGIN, a);
    var t2 := SystemTry(t1, a);
    assert [a, a][..1] == [a] && [a][..0] == [];
    assert SystemTryAll(BEGIN, [a]) == SystemTry(SystemTryAll(BEGIN, []), a) == t1;
    assert SystemTryAll(BEGIN, [a, a]) == SystemTry(SystemTryAll(BEGIN, [a]), a) == t2;
    assert t1.outstanding == [RequestOf(a)] && t2.outstanding == [RequestOf(a), RequestOf(a)];
    assert Without(t2.outstanding, 0) == [RequestOf(a)];
  }

  // ----- what is sent, and how a step ends -----

  /** A storage request goes out exactly if its buffer is not empty, fewer than 100 attempts were
      counted (modulo 2^32), its command is odd, all requests under way carry the same command, and the network
      takes it. */
  lemma StorageGoesOutIff(s: System, cmd: uint32, bufferEmpty: bool, network: bool)
    requires WithinBudget(s) && Correlated(s)
    ensures var out := SystemTry(s, Storage(cmd, bufferEmpty, network)).outstanding;
            if !bufferEmpty && s.counted % 0x1_0000_0000 < 100 && cmd % 2 == 1
               && (forall r | r in s.outstanding :: r.cmd == cmd) && network
            then out == s.outstanding + [Request(true, cmd)]
            else out == s.outstanding
  {
    if |s.outstanding| > 0 {
      assert s.outstanding[0] in s.outstanding;
    }
  }

  /** A logic request goes out exactly if it has a command and a body, fewer than 100 attempts
      were counted (modulo 2^32), and the network takes it. */
  lemma LogicGoesOutIff(s: System, cmd: uint32, bodySize: nat, network: bool)
    requires WithinBudget(s)
    ensures var out := SystemTry(s, Logic(cmd, bodySize, network)).outstanding;
            if cmd != 0 && bodySize != 0 && s.counted % 0x1_0000_0000 < 100 && network
            then out == s.outstanding + [Request(false, 40001)]
            else out == s.outstanding
  {
  }

  /** Attempts with an argument error are free, all others count, whatever becomes of them. */
  lemma AttemptsCounted(s: System, a: Attempt)
    ensures SystemTry(s, a).counted - s.counted
            == if (a.Storage? && !a.bufferEmpty) || (a.Logic? && a.cmd != 0 && a.bodySize != 0) then 1 else 0
  {
  }

  /** The two requests whose replies the handlers know. */
  predicate Answerable(r: Request) {
    r == Request(true, 20001) || r == Request(false, 40001)
  }

  /** A reply ends the step in failure exactly if it reports one or answers a request that no
      handler knows; otherwise its callback has run, and the step is over exactly if nothing is
      under way. */
  lemma ReplyEndsStepIff(s: System, e: Event)
    requires Correlated(s) && e.Reply? && Legal(s, e) && ProperEvent(s, e)
    ensures var known, t := Answerable(s.outstanding[e.index]), React(s, e);
            && (t.status == Fault <==> e.failed || !known)
            && (t.status == Completed <==> !e.failed && known && t.outstanding == [])
            && t.outstanding == SystemTryAll(AfterReply(s, e.index), if known then e.attempts else []).outstanding
  {
    ReplyIsCorrelated(s, e);
    hide SystemTryAll;
  }

  /** A step fails at its start exactly if that reports a failure, and is over at once exactly
      if nothing went out. */
  lemma StartEndsStepIff(attempts: seq<Attempt>, failed: bool)
    requires AllProper(BEGIN.client, attempts)
    ensures var s := React(BEGIN, Start(attempts, failed));
            && (s.status == Fault <==> failed)
            && (s.status == Completed <==> !failed && s.outstanding == [])
            && s.outstanding == SystemTryAll(BEGIN, attempts).outstanding
  {
    hide SystemTryAll;
    AttemptsKeepCorrelated(BEGIN, attempts);
  }

  lemma TryAllOne(s: System, a: Attempt)
    ensures SystemTryAll(s, [a]) == SystemTry(s, a) && SystemTryAll(s, []) == s
  {
    assert [a][..0] == [];
  }

  /** A step of one request: it runs until the reply, which goes to the right handler under the
      right code and runs the callback; the callback may send again or end the step. */
  lemma OneRequestRound(a: Attempt, cmd: uint32, size: nat)
    requires a == Storage(20001, false, true) || (a == Logic(cmd, size, true) && cmd != 0 && size != 0)
    ensures var r := if a.Storage? then Request(true, 20001) else Request(false, 40001);
            var s := React(BEGIN, Start([a], false));
            && s.status == Running && s.outstanding == [r]
            && DispatchOf(s.client) == (if a.Storage? then Dispatch(true, 20002) else Dispatch(false, 40002))
            && var done := React(s, Reply(0, false, []));
               var again := React(s, Reply(0, false, [a]));
               && done.status == Completed && done.outstanding == []
               && again.status == Running && again.outstanding == [r]
               && React(s, Reply(0, true, [])).status == Fault
               && React(s, Timeout([])).status == Fault
  {
    TryAllOne(BEGIN, a);
    var s := SystemTry(BEGIN, a);
    var answered := s.(client := Answered(s.client), outstanding := [], replies := 1);
    TryAllOne(answered, a);
    hide SystemTryAll;
    assert Without(s.outstanding, 0) == [];
  }
}
