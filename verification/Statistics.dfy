/** The load statistics: reports accumulate per node and are flushed, at most once per
    interval, into a table; a failed insert ends the flush. */
module Statistics {
  import opened Text
  import opened Registry

  datatype Counters = Counters(recvNum: int, recvByte: int, sendNum: int, sendByte: int)

  const ZERO := Counters(0, 0, 0, 0)

  function Plus(a: Counters, b: Counters): Counters {
    Counters(a.recvNum + b.recvNum, a.recvByte + b.recvByte, a.sendNum + b.sendNum, a.sendByte + b.sendByte)
  }

  /** `st_NodeStaisticsInfo`: a node's identity, its latest gauges and its running counters. */
  datatype Stat = Stat(nodeId: int, nodeType: string, ip: CString, port: int, accessIp: CString, accessPort: int,
                       workerNum: int, load: int, connect: int, client: int, counters: Counters)

  datatype Row = Row(stat: Stat, time: nat)

  type Held = map<string, Stat>

  datatype State = State(held: Held, lastFlush: nat, rows: seq<Row>)

  function CountersOf(info: NodeInfo): Counters {
    Counters(info.load.recvNum, info.load.recvByte, info.load.sendNum, info.load.sendByte)
  }

  function StatOf(info: NodeInfo): Stat {
    Stat(info.nodeId, info.nodeType, info.nodeIp, info.nodePort, info.accessIp, info.accessPort,
         info.workerNum, info.load.load, info.load.connect, info.load.client, CountersOf(info))
  }

  /** `operator +=`: the address must match; gauges are replaced, counters added. */
  function Accumulate(s: Stat, info: NodeInfo): Stat {
    if s.ip == info.nodeIp && s.port == info.nodePort then
      s.(workerNum := info.workerNum, load := info.load.load, connect := info.load.connect,
         client := info.load.client, counters := Plus(s.counters, CountersOf(info)))
    else s
  }

  function Noted(held: Held, info: NodeInfo): Held {
    var key := NodeKey(info);
    held[key := if key in held then Accumulate(held[key], info) else StatOf(info)]
  }

  /** The first `n` inserts of a flush: a row per entry, whose counters are then cleared. */
  function Flushed(s: State, order: seq<string>, n: nat, now: nat): State
    requires n <= |order| && forall k | k in order :: k in s.held
    ensures Flushed(s, order, n, now).held.Keys == s.held.Keys
  {
    if n == 0 then s
    else
      var t := Flushed(s, order, n - 1, now);
      var stat := t.held[order[n - 1]];
      t.(held := t.held[order[n - 1] := stat.(counters := ZERO)], rows := t.rows + [Row(stat, now)])
  }

  predicate Due(s: State, interval: nat, now: nat) {
    now >= s.lastFlush + interval
  }

  function Inserts(order: seq<string>, failing: nat): (n: nat)
    ensures n <= |order|
  {
    if failing < |order| then failing else |order|
  }

  /** The insert with index `failing` fails, and ends the flush, if the flush gets that far. */
  function Report(s: State, interval: nat, info: NodeInfo, now: nat, order: seq<string>, failing: nat): State
    requires forall k | k in order :: k in s.held || k == NodeKey(info)
  {
    var noted := s.(held := Noted(s.held, info));
    if Due(s, interval, now) then
      Flushed(noted.(lastFlush := now), order, Inserts(order, failing), now)
    else noted
  }

  class NodeStatistics {
    const interval: nat
    var mapNodeStatisticsInfo: Held
    var currentTime: nat
    var statisticsLastTime: nat
    /** The rows inserted so far, oldest first. */
    var table: seq<Row>

    constructor (interval: nat)
      ensures this.interval == interval && View() == State(map[], 0, [])
    {
      this.interval, mapNodeStatisticsInfo, currentTime, statisticsLastTime, table := interval, map[], 0, 0, [];
    }

    function View(): State
      reads this
    {
      State(mapNodeStatisticsInfo, statisticsLastTime, table)
    }

    method Keys() returns (order: seq<string>)
      ensures forall k :: k in order <==> k in mapNodeStatisticsInfo
    {
      order := [];
      var rest := mapNodeStatisticsInfo.Keys;
      while rest != {}
        invariant rest <= mapNodeStatisticsInfo.Keys
        invariant forall k :: k in order <==> k in mapNodeStatisticsInfo && k !in rest
      {
        var k :| k in rest;
        rest, order := rest - {k}, order + [k];
      }
    }

    method InsertNodeStatisticsToDB(failing: nat) returns (ok: bool, ghost order: seq<string>)
      modifies this`mapNodeStatisticsInfo, this`statisticsLastTime, this`table
      ensures forall k :: k in order <==> k in old(mapNodeStatisticsInfo)
      ensures ok == (failing >= |order|)
      ensures View() == Flushed(old(View()).(lastFlush := currentTime), order, if ok then |order| else failing,
                                currentTime)
    {
      statisticsLastTime := currentTime;
      ghost var start := View();
      var keys := Keys();
      order := keys;
      for i := 0 to |keys|
        invariant i <= failing
        invariant View() == Flushed(start, keys, i, currentTime)
      {
        if i == failing {
          return false, order;
        }
        var stat := mapNodeStatisticsInfo[keys[i]];
        table := table + [Row(stat, currentTime)];
        mapNodeStatisticsInfo := mapNodeStatisticsInfo[keys[i] := stat.(counters := ZERO)];
      }
      ok := true;
    }

    method WriteNodeStatistics(info: NodeInfo, now: nat, failing: nat) returns (ok: bool, ghost order: seq<string>)
      modifies this
      ensures forall k | k in order :: k in old(mapNodeStatisticsInfo) || k == NodeKey(info)
      ensures View() == Report(old(View()), interval, info, now, order, failing)
      ensures Due(old(View()), interval, now) ==>
                forall k :: k in order <==> k in Noted(old(mapNodeStatisticsInfo), info)
    {
      hide NodeKey, Accumulate, StatOf, Flushed;
      currentTime := now;
      var key := NodeKey(info);
      if key !in mapNodeStatisticsInfo {
        mapNodeStatisticsInfo := mapNodeStatisticsInfo[key := StatOf(info)];
      } else {
        mapNodeStatisticsInfo := mapNodeStatisticsInfo[key := Accumulate(mapNodeStatisticsInfo[key], info)];
      }
      ok, order := true, [];
      if currentTime >= statisticsLastTime + interval {
        ok, order := InsertNodeStatisticsToDB(failing);
      }
    }
  }
}

/** Nothing counted is lost or counted twice, over every run and every pattern of failures. */
module StatisticsProofs {
  import opened Options
  import opened Registry
  import RegistryProofs
  import opened Statistics

  datatype Op = Op(info: NodeInfo, now: nat, order: seq<string>, failing: nat)

  ghost predicate Legal(s: State, op: Op) {
    forall k | k in op.order :: k in s.held || k == NodeKey(op.info)
  }

  ghost predicate LegalRun(interval: nat, ops: seq<Op>)
    decreases |ops|, 0
  {
    |ops| > 0 ==>
      LegalRun(interval, ops[..|ops| - 1]) && Legal(Run(interval, ops[..|ops| - 1]), ops[|ops| - 1])
  }

  ghost function Run(interval: nat, ops: seq<Op>): State
    requires LegalRun(interval, ops)
    decreases |ops|, 1
  {
    if |ops| == 0 then State(map[], 0, [])
    else
      var op := ops[|ops| - 1];
      Report(Run(interval, ops[..|ops| - 1]), interval, op.info, op.now, op.order, op.failing)
  }

  function StatKey(s: Stat): string {
    KeyOf(s.ip, s.port)
  }

  /** All that node `key` has reported. */
  function Reported(ops: seq<Op>, key: string): Counters {
    if |ops| == 0 then ZERO
    else
      var before := Reported(ops[..|ops| - 1], key);
      if NodeKey(ops[|ops| - 1].info) == key then Plus(before, CountersOf(ops[|ops| - 1].info)) else before
  }

  /** All that the inserted rows say of node `key`. */
  function Inserted(rows: seq<Row>, key: string): Counters {
    if |rows| == 0 then ZERO
    else
      var before := Inserted(rows[..|rows| - 1], key);
      if StatKey(rows[|rows| - 1].stat) == key then Plus(before, rows[|rows| - 1].stat.counters) else before
  }

  function HeldBy(held: Held, key: string): Counters {
    if key in held then held[key].counters else ZERO
  }

  ghost predicate OwnKeys(held: Held) {
    forall k | k in held :: StatKey(held[k]) == k
  }

  /** A report adds its counters to what is held for its node and to nothing else. */
  lemma NotedAdds(held: Held, info: NodeInfo, key: string)
    requires OwnKeys(held)
    ensures OwnKeys(Noted(held, info))
    ensures HeldBy(Noted(held, info), key)
            == if NodeKey(info) == key then Plus(HeldBy(held, key), CountersOf(info)) else HeldBy(held, key)
  {
    var own := NodeKey(info);
    if own in held {
      RegistryProofs.KeyInjective(held[own].ip, held[own].port, info.nodeIp, info.nodePort);
    }
    hide KeyOf;
  }

  lemma InsertMoves(held: Held, rows: seq<Row>, k: string, now: nat, key: string)
    requires OwnKeys(held) && k in held
    ensures var held', rows' := held[k := held[k].(counters := ZERO)], rows + [Row(held[k], now)];
            && OwnKeys(held')
            && Plus(Inserted(rows', key), HeldBy(held', key)) == Plus(Inserted(rows, key), HeldBy(held, key))
  {
    var rows' := rows + [Row(held[k], now)];
    assert rows'[..|rows'| - 1] == rows;
    assert StatKey(held[k]) == k;
    hide KeyOf;
  }

  /** A flush moves counters from what is held into rows, however far it gets. */
  lemma {:induction false} FlushMoves(s: State, order: seq<string>, n: nat, now: nat, key: string)
    requires n <= |order| && (forall k | k in order :: k in s.held) && OwnKeys(s.held)
    ensures var t := Flushed(s, order, n, now);
            && OwnKeys(t.held)
            && Plus(Inserted(t.rows, key), HeldBy(t.held, key)) == Plus(Inserted(s.rows, key), HeldBy(s.held, key))
  {
    hide KeyOf, OwnKeys, Inserted, HeldBy;
    if n > 0 {
      FlushMoves(s, order, n - 1, now, key);
      var t := Flushed(s, order, n - 1, now);
      InsertMoves(t.held, t.rows, order[n - 1], now, key);
    }
  }

  /** Conservation: for every node, what it reported is what the rows inserted for it say
      plus what is still held, whichever inserts failed. */
  lemma {:induction false} NothingIsLost(interval: nat, ops: seq<Op>, key: string)
    requires LegalRun(interval, ops)
    ensures var s := Run(interval, ops);
            && OwnKeys(s.held)
            && Reported(ops, key) == Plus(Inserted(s.rows, key), HeldBy(s.held, key))
  {
    hide NodeKey, CountersOf, Inserted, HeldBy, Noted, Flushed, OwnKeys;
    if |ops| == 0 {
      NothingYet(key);
    } else {
      var before, op := ops[..|ops| - 1], ops[|ops| - 1];
      NothingIsLost(interval, before, key);
      var s := Run(interval, before);
      NotedAdds(s.held, op.info, key);
      NotedKeys(s.held, op.info);
      var noted := s.(held := Noted(s.held, op.info));
      if Due(s, interval, op.now) {
        FlushMoves(noted.(lastFlush := op.now), op.order, Inserts(op.order, op.failing), op.now, key);
      }
    }
  }

  lemma NothingYet(key: string)
    ensures OwnKeys(map[]) && HeldBy(map[], key) == ZERO && Inserted([], key) == ZERO
  {
  }

  lemma NotedKeys(held: Held, info: NodeInfo)
    ensures Noted(held, info).Keys == held.Keys + {NodeKey(info)}
  {
  }

  // ----- what is held and inserted besides the counters -----

  /** The last report of a node. */
  function Latest(ops: seq<Op>, key: string): Option<NodeInfo> {
    if |ops| == 0 then None
    else if NodeKey(ops[|ops| - 1].info) == key then Some(ops[|ops| - 1].info)
    else Latest(ops[..|ops| - 1], key)
  }

  /** The first report of a node. */
  function First(ops: seq<Op>, key: string): Option<NodeInfo> {
    if |ops| == 0 then None
    else
      var before := First(ops[..|ops| - 1], key);
      if before.None? && NodeKey(ops[|ops| - 1].info) == key then Some(ops[|ops| - 1].info) else before
  }

  /** The address and the gauges are those of the report. */
  predicate Shows(s: Stat, info: NodeInfo) {
    && s.ip == info.nodeIp && s.port == info.nodePort
    && s.workerNum == info.workerNum && s.load == info.load.load
    && s.connect == info.load.connect && s.client == info.load.client
  }

  /** The identity is that of the report. */
  predicate Named(s: Stat, info: NodeInfo) {
    s.nodeId == info.nodeId && s.nodeType == info.nodeType && s.accessIp == info.accessIp
    && s.accessPort == info.accessPort
  }

  /** `s` is what `ops` say of node `key`, the counters apart. */
  predicate Describes(s: Stat, ops: seq<Op>, key: string) {
    && Latest(ops, key).Some? && Shows(s, Latest(ops, key).value)
    && First(ops, key).Some? && Named(s, First(ops, key).value)
  }

  ghost predicate HeldDescribes(held: Held, ops: seq<Op>) {
    && (forall k | k in held :: Describes(held[k], ops, k))
    && (forall k | k !in held :: Latest(ops, k).None? && First(ops, k).None?)
  }

  /** One more report, seen from each node's last and first report. */
  lemma OneMoreReport(ops: seq<Op>, op: Op, key: string)
    ensures Latest(ops + [op], key) == if NodeKey(op.info) == key then Some(op.info) else Latest(ops, key)
    ensures First(ops + [op], key) == if NodeKey(op.info) == key && First(ops, key).None? then Some(op.info)
                                      else First(ops, key)
  {
    assert (ops + [op])[..|ops|] == ops;
    hide NodeKey;
  }

  /** What a report leaves held for its own node. */
  lemma NotedShows(held: Held, info: NodeInfo)
    requires OwnKeys(held)
    ensures var own, noted := NodeKey(info), Noted(held, info);
            && noted == held[own := noted[own]] && Shows(noted[own], info)
            && (forall i: NodeInfo :: own in held && Named(held[own], i) ==> Named(noted[own], i))
            && (own !in held ==> Named(noted[own], info))
  {
    var own := NodeKey(info);
    if own in held {
      RegistryProofs.KeyInjective(held[own].ip, held[own].port, info.nodeIp, info.nodePort);
    }
    hide KeyOf;
  }

  lemma NotedDescribes(held: Held, ops: seq<Op>, op: Op)
    requires OwnKeys(held) && HeldDescribes(held, ops)
    ensures HeldDescribes(Noted(held, op.info), ops + [op])
  {
    var own, noted := NodeKey(op.info), Noted(held, op.info);
    hide NodeKey, Noted, Shows, Named, Latest, First;
    NotedShows(held, op.info);
    forall k ensures k in noted ==> Describes(noted[k], ops + [op], k)
             ensures k !in noted ==> Latest(ops + [op], k).None? && First(ops + [op], k).None? {
      OneMoreReport(ops, op, k);
    }
  }

  /** Equal but for the counters. */
  predicate SameGauges(s: Stat, t: Stat) {
    s.(counters := ZERO) == t.(counters := ZERO)
  }

  ghost predicate SameHeld(held: Held, held': Held) {
    held.Keys == held'.Keys && forall k | k in held :: SameGauges(held[k], held'[k])
  }

  /** The row was inserted at `now` and shows what was held for its node. */
  ghost predicate RowOfHeld(row: Row, held: Held, now: nat) {
    row.time == now && exists k :: k in held && SameGauges(row.stat, held[k])
  }

  /** A flush changes counters only, and each row it inserts shows what was held for its node. */
  lemma {:induction false} FlushShows(s: State, order: seq<string>, n: nat, now: nat)
    requires n <= |order| && forall k | k in order :: k in s.held
    ensures SameHeld(Flushed(s, order, n, now).held, s.held)
    ensures forall row | row in Flushed(s, order, n, now).rows :: row in s.rows || RowOfHeld(row, s.held, now)
  {
    if n > 0 {
      FlushShows(s, order, n - 1, now);
      InsertShows(Flushed(s, order, n - 1, now).held, s.held, order[n - 1], now);
      hide RowOfHeld, SameHeld;
    }
  }

  lemma InsertShows(held: Held, start: Held, k: string, now: nat)
    requires k in held && SameHeld(held, start)
    ensures SameHeld(held[k := held[k].(counters := ZERO)], start)
    ensures RowOfHeld(Row(held[k], now), start, now)
  {
    assert SameGauges(held[k], start[k]);
  }

  /** Some operation of the run explains the row: inserted then, it shows the last report its
      node had made, and names the node as its first report did. */
  ghost predicate Explained(ops: seq<Op>, row: Row) {
    exists i :: 0 <= i < |ops| && row.time == ops[i].now && Describes(row.stat, ops[..i + 1], StatKey(row.stat))
  }

  lemma StillExplained(ops: seq<Op>, op: Op, row: Row)
    requires Explained(ops, row)
    ensures Explained(ops + [op], row)
  {
    hide Describes, StatKey;
    var i :| 0 <= i < |ops| && row.time == ops[i].now && Describes(row.stat, ops[..i + 1], StatKey(row.stat));
    assert (ops + [op])[..i + 1] == ops[..i + 1] && (ops + [op])[i] == ops[i];
  }

  lemma NewlyExplained(held: Held, ops: seq<Op>, op: Op, row: Row)
    requires OwnKeys(held) && HeldDescribes(held, ops + [op]) && RowOfHeld(row, held, op.now)
    ensures Explained(ops + [op], row)
  {
    var all := ops + [op];
    var k :| k in held && SameGauges(row.stat, held[k]);
    assert StatKey(held[k]) == k == StatKey(row.stat);
    hide KeyOf, Latest, First;
    assert all[..|ops| + 1] == all && all[|ops|] == op;
    assert Describes(row.stat, all, k);
  }

  lemma SameHeldDescribes(held: Held, held': Held, ops: seq<Op>)
    requires SameHeld(held', held) && HeldDescribes(held, ops)
    ensures HeldDescribes(held', ops)
  {
    hide Latest, First;
    forall k | k in held' ensures Describes(held'[k], ops, k) {
      assert Describes(held[k], ops, k) && SameGauges(held'[k], held[k]);
    }
  }

  /** In every run what is held for a node, and every row ever inserted for it, shows the gauges
      of the last report it had made by then and names it as its first report did. */
  lemma {:induction false} RowsShowReports(interval: nat, ops: seq<Op>)
    requires LegalRun(interval, ops)
    ensures HeldDescribes(Run(interval, ops).held, ops)
    ensures forall row | row in Run(interval, ops).rows :: Explained(ops, row)
  {
    hide NodeKey, Noted, Flushed, Describes, Explained, OwnKeys, HeldDescribes;
    if |ops| == 0 {
      NothingReported();
    } else {
      var before, op := ops[..|ops| - 1], ops[|ops| - 1];
      assert before + [op] == ops;
      RowsShowReports(interval, before);
      NothingIsLost(interval, before, "");
      var s := Run(interval, before);
      var held := Noted(s.held, op.info);
      NotedDescribes(s.held, before, op);
      NotedAdds(s.held, op.info, "");
      NotedKeys(s.held, op.info);
      forall row | row in s.rows ensures Explained(ops, row) {
        StillExplained(before, op, row);
      }
      if Due(s, interval, op.now) {
        var start, n := s.(held := held, lastFlush := op.now), Inserts(op.order, op.failing);
        FlushShows(start, op.order, n, op.now);
        SameHeldDescribes(held, Flushed(start, op.order, n, op.now).held, ops);
        forall row | row in Flushed(start, op.order, n, op.now).rows ensures Explained(ops, row) {
          if row !in s.rows {
            NewlyExplained(held, before, op, row);
          }
        }
      }
    }
  }

  lemma NothingReported()
    ensures HeldDescribes(map[], [])
  {
  }

  // ----- how often a flush happens -----

  function LatestOf(times: seq<nat>): nat {
    if times == [] then 0 else times[|times| - 1]
  }

  /** The times of the flush passes of a run: the first report at least the interval after the
      clock's zero makes one, and then each first report at least the interval after the last. */
  function FlushTimes(interval: nat, ops: seq<Op>): seq<nat> {
    if |ops| == 0 then []
    else
      var times, now := FlushTimes(interval, ops[..|ops| - 1]), ops[|ops| - 1].now;
      times + if LatestOf(times) + interval <= now then [now] else []
  }

  lemma {:induction false} FlushKeepsTime(s: State, order: seq<string>, n: nat, now: nat)
    requires n <= |order| && forall k | k in order :: k in s.held
    ensures Flushed(s, order, n, now).lastFlush == s.lastFlush
  {
    if n > 0 {
      FlushKeepsTime(s, order, n - 1, now);
    }
  }

  lemma SpanGrows(first: int, last: int, now: int, k: int, interval: int)
    requires last - first >= (k - 1) * interval && now >= last + interval
    ensures now - first >= k * interval
  {
  }

  /** The gaps between flush passes. */
  ghost predicate Spaced(interval: nat, times: seq<nat>) {
    times != [] ==> times[|times| - 1] - times[0] >= (|times| - 1) * interval
  }

  lemma FlushKeepsSpaced(interval: nat, times: seq<nat>, now: nat)
    requires Spaced(interval, times) && now >= LatestOf(times) + interval
    ensures Spaced(interval, times + [now])
  {
    if times != [] {
      SpanGrows(times[0], LatestOf(times), now, |times|, interval);
    }
  }

  /** What an operation does to the time of the last flush. */
  lemma ReportSetsTime(s: State, interval: nat, op: Op)
    requires Legal(s, op)
    ensures Report(s, interval, op.info, op.now, op.order, op.failing).lastFlush
            == if s.lastFlush + interval <= op.now then op.now else s.lastFlush
  {
    NotedKeys(s.held, op.info);
    var noted := s.(held := Noted(s.held, op.info), lastFlush := op.now);
    if Due(s, interval, op.now) {
      FlushKeepsTime(noted, op.order, Inserts(op.order, op.failing), op.now);
    }
  }

  lemma {:induction false} LastFlushIs(interval: nat, ops: seq<Op>)
    requires LegalRun(interval, ops)
    ensures Run(interval, ops).lastFlush == LatestOf(FlushTimes(interval, ops))
  {
    hide Report, Legal;
    if |ops| > 0 {
      LastFlushIs(interval, ops[..|ops| - 1]);
      ReportSetsTime(Run(interval, ops[..|ops| - 1]), interval, ops[|ops| - 1]);
    }
  }

  /** Flush passes, complete or not, are at least the interval apart, so k of them span at
      least k - 1 intervals, whatever the clock does in between. */
  lemma {:induction false} FlushesAreSpaced(interval: nat, ops: seq<Op>)
    requires LegalRun(interval, ops)
    ensures Run(interval, ops).lastFlush == LatestOf(FlushTimes(interval, ops))
    ensures var times := FlushTimes(interval, ops);
            times != [] ==> times[|times| - 1] - times[0] >= (|times| - 1) * interval
  {
    LastFlushIs(interval, ops);
    TimesAreSpaced(interval, ops);
    hide Run, LegalRun, FlushTimes, LatestOf;
  }

  lemma {:induction false} TimesAreSpaced(interval: nat, ops: seq<Op>)
    ensures Spaced(interval, FlushTimes(interval, ops))
  {
    hide Spaced;
    if |ops| > 0 {
      TimesAreSpaced(interval, ops[..|ops| - 1]);
      var times := FlushTimes(interval, ops[..|ops| - 1]);
      if LatestOf(times) + interval <= ops[|ops| - 1].now {
        FlushKeepsSpaced(interval, times, ops[|ops| - 1].now);
      } else {
        assert times + [] == times;
      }
    } else {
      NoFlushYet(interval);
    }
  }

  lemma NoFlushYet(interval: nat)
    ensures Spaced(interval, [])
  {
  }

  // ----- what a flush achieves -----

  lemma {:induction false} FlushClears(s: State, order: seq<string>, n: nat, now: nat, k: string)
    requires n <= |order| && (forall j | j in order :: j in s.held)
    requires k in order[..n] || (k in s.held && s.held[k].counters == ZERO)
    ensures k in Flushed(s, order, n, now).held && Flushed(s, order, n, now).held[k].counters == ZERO
  {
    if n > 0 && order[n - 1] != k {
      assert k in order[..n] ==> k in order[..n - 1];
      FlushClears(s, order, n - 1, now, k);
    }
  }

  /** A report that comes at least the interval after the last flush pass flushes: if no insert
      fails, all that was ever reported, by any node, is then in inserted rows. */
  lemma DueReportFlushesAll(interval: nat, ops: seq<Op>, key: string)
    requires LegalRun(interval, ops) && |ops| > 0
    requires var before, op := ops[..|ops| - 1], ops[|ops| - 1];
             && LatestOf(FlushTimes(interval, before)) + interval <= op.now
             && |op.order| <= op.failing
             && forall k :: k in op.order <==> k in Noted(Run(interval, before).held, op.info)
    ensures Reported(ops, key) == Inserted(Run(interval, ops).rows, key)
  {
    hide Report, Legal, Inserted, Reported, FlushTimes, HeldBy, Noted, OwnKeys;
    LastFlushIs(interval, ops[..|ops| - 1]);
    NothingIsLost(interval, ops, key);
    DueReportClears(Run(interval, ops[..|ops| - 1]), interval, ops[|ops| - 1], key);
  }

  lemma DueReportClears(s: State, interval: nat, op: Op, key: string)
    requires Legal(s, op) && forall k :: k in op.order <==> k in Noted(s.held, op.info)
    requires s.lastFlush + interval <= op.now && |op.order| <= op.failing
    ensures HeldBy(Report(s, interval, op.info, op.now, op.order, op.failing).held, key) == ZERO
  {
    hide Noted, NodeKey;
    NotedKeys(s.held, op.info);
    var start := s.(held := Noted(s.held, op.info), lastFlush := op.now);
    assert op.order[..|op.order|] == op.order;
    if key in start.held {
      FlushClears(start, op.order, |op.order|, op.now, key);
    }
    hide Flushed;
  }

  // ----- counter by counter -----

  function Sum(ops: seq<Op>, key: string, count: NodeInfo -> int): int {
    if |ops| == 0 then 0
    else
      var before := Sum(ops[..|ops| - 1], key, count);
      if NodeKey(ops[|ops| - 1].info) == key then before + count(ops[|ops| - 1].info) else before
  }

  function RowSum(rows: seq<Row>, key: string, count: Counters -> int): int {
    if |rows| == 0 then 0
    else
      var before := RowSum(rows[..|rows| - 1], key, count);
      if StatKey(rows[|rows| - 1].stat) == key then before + count(rows[|rows| - 1].stat.counters) else before
  }

  lemma {:induction false} ReportedSums(ops: seq<Op>, key: string)
    ensures Reported(ops, key).recvNum == Sum(ops, key, (i: NodeInfo) => i.load.recvNum)
    ensures Reported(ops, key).recvByte == Sum(ops, key, (i: NodeInfo) => i.load.recvByte)
    ensures Reported(ops, key).sendNum == Sum(ops, key, (i: NodeInfo) => i.load.sendNum)
    ensures Reported(ops, key).sendByte == Sum(ops, key, (i: NodeInfo) => i.load.sendByte)
  {
    hide NodeKey;
    if |ops| > 0 {
      ReportedSums(ops[..|ops| - 1], key);
    }
  }

  lemma {:induction false} InsertedSums(rows: seq<Row>, key: string)
    ensures Inserted(rows, key).recvNum == RowSum(rows, key, (c: Counters) => c.recvNum)
    ensures Inserted(rows, key).recvByte == RowSum(rows, key, (c: Counters) => c.recvByte)
    ensures Inserted(rows, key).sendNum == RowSum(rows, key, (c: Counters) => c.sendNum)
    ensures Inserted(rows, key).sendByte == RowSum(rows, key, (c: Counters) => c.sendByte)
  {
    hide StatKey;
    if |rows| > 0 {
      InsertedSums(rows[..|rows| - 1], key);
    }
  }

  /** Conservation, counter by counter: what a node's reports add up to is what the rows inserted
      for it add up to and what is held. */
  lemma EachCounterIsConserved(interval: nat, ops: seq<Op>, key: string)
    requires LegalRun(interval, ops)
    ensures var s := Run(interval, ops);
            var held := HeldBy(s.held, key);
            && Sum(ops, key, (i: NodeInfo) => i.load.recvNum)
               == RowSum(s.rows, key, (c: Counters) => c.recvNum) + held.recvNum
            && Sum(ops, key, (i: NodeInfo) => i.load.recvByte)
               == RowSum(s.rows, key, (c: Counters) => c.recvByte) + held.recvByte
            && Sum(ops, key, (i: NodeInfo) => i.load.sendNum)
               == RowSum(s.rows, key, (c: Counters) => c.sendNum) + held.sendNum
            && Sum(ops, key, (i: NodeInfo) => i.load.sendByte)
               == RowSum(s.rows, key, (c: Counters) => c.sendByte) + held.sendByte
  {
    NothingIsLost(interval, ops, key);
    ReportedSums(ops, key);
    InsertedSums(Run(interval, ops).rows, key);
    hide Run, Reported, Inserted, Sum, RowSum, HeldBy, OwnKeys;
  }
}
