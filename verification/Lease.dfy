/** The status table: who is online, who is marked offline, whose row is deleted. The table
    holds one row per node key; each SQL statement may fail, as its input says. */
module Lease {
  import opened Words

  datatype Row = Row(nodeId: int, activeTime: uint64, online: bool)

  type Table = map<string, Row>

  /** The intervals are `int` settings. */
  type Seconds = x: int | 0 <= x < 0x8000_0000

  datatype Config = Config(checkInterval: Seconds, offlineInterval: Seconds, deleteInterval: Seconds)

  datatype State = State(rows: Table, lastCheck: nat)

  /** Which statements of one status write succeed. */
  datatype Statements = Statements(replace: bool, clear: bool, mark: bool)

  /** `(uint64)(m_currenttime - interval)`: an unsigned difference that wraps below zero. */
  function Cutoff(now: uint64, interval: Seconds): uint64 {
    (now - interval) % TWO_64
  }

  // ----- the statements -----

  function Replace(rows: Table, key: string, nodeId: int, now: uint64): Table {
    rows[key := Row(nodeId, now, true)]
  }

  predicate Overdue(row: Row, cutoff: uint64) {
    row.activeTime <= cutoff && !row.online
  }

  function ClearOverdue(rows: Table, cutoff: uint64): Table {
    map k | k in rows && !Overdue(rows[k], cutoff) :: rows[k]
  }

  function MarkInactive(rows: Table, cutoff: uint64): Table {
    map k | k in rows :: if rows[k].activeTime <= cutoff then rows[k].(online := false) else rows[k]
  }

  function MarkId(rows: Table, nodeId: int): Table {
    map k | k in rows :: if rows[k].nodeId == nodeId then rows[k].(online := false) else rows[k]
  }

  // ----- the operations -----

  /** Deleting is rate-limited, marking is not; failures are ignored. */
  function Check(cfg: Config, s: State, now: uint64, ok: Statements): State {
    var due := now >= s.lastCheck + cfg.checkInterval;
    var rows := if due && ok.clear then ClearOverdue(s.rows, Cutoff(now, cfg.deleteInterval)) else s.rows;
    State(if ok.mark then MarkInactive(rows, Cutoff(now, cfg.offlineInterval)) else rows,
          if due then now else s.lastCheck)
  }

  function Write(cfg: Config, s: State, key: string, nodeId: int, now: uint64, ok: Statements): State {
    if !ok.replace then s else Check(cfg, s.(rows := Replace(s.rows, key, nodeId, now)), now, ok)
  }

  class NodeStatus {
    const cfg: Config
    var table: Table
    var currentTime: uint64
    var statusCheckLastTime: nat

    constructor (cfg: Config)
      ensures this.cfg == cfg && View() == State(map[], 0)
    {
      this.cfg, table, currentTime, statusCheckLastTime := cfg, map[], 0, 0;
    }

    function View(): State
      reads this
    {
      State(table, statusCheckLastTime)
    }

    method ReplaceNodeStatusToDB(key: string, nodeId: int, ok: bool) returns (done: bool)
      modifies this`table
      ensures done == ok && table == if ok then Replace(old(table), key, nodeId, currentTime) else old(table)
    {
      if ok {
        table := table[key := Row(nodeId, currentTime, true)];
      }
      done := ok;
    }

    method ClearOverdueOfflineNodeStatusToDB(ok: bool) returns (done: bool)
      modifies this`table
      ensures done == ok
      ensures table == if ok then ClearOverdue(old(table), Cutoff(currentTime, cfg.deleteInterval)) else old(table)
    {
      if ok {
        var cutoff := Cutoff(currentTime, cfg.deleteInterval);
        table := map k | k in table && !Overdue(table[k], cutoff) :: table[k];
      }
      done := ok;
    }

    method CheckOfflineNodeStatusToDB(ok: bool) returns (done: bool)
      modifies this`table
      ensures done == ok
      ensures table == if ok then MarkInactive(old(table), Cutoff(currentTime, cfg.offlineInterval)) else old(table)
    {
      if ok {
        table := MarkInactive(table, Cutoff(currentTime, cfg.offlineInterval));
      }
      done := ok;
    }

    method CheckNodeStatus(ok: Statements) returns (done: bool)
      modifies this`table, this`statusCheckLastTime
      ensures done && View() == Check(cfg, old(View()), currentTime, ok)
    {
      if currentTime >= statusCheckLastTime + cfg.checkInterval {
        var _ := ClearOverdueOfflineNodeStatusToDB(ok.clear);
        statusCheckLastTime := currentTime;
      }
      var _ := CheckOfflineNodeStatusToDB(ok.mark);
      done := true;
    }

    method WriteNodeStatus(key: string, nodeId: int, now: uint64, ok: Statements) returns (done: bool)
      modifies this
      ensures done == ok.replace && View() == Write(cfg, old(View()), key, nodeId, now, ok)
    {
      currentTime := now;
      done := ReplaceNodeStatusToDB(key, nodeId, ok.replace);
      if !done {
        return;
      }
      done := CheckNodeStatus(ok);
    }

    method SetNodeDataOfflineToDBByNodeId(nodeId: int, ok: bool) returns (done: bool)
      modifies this`table
      ensures done == ok && table == if ok then MarkId(old(table), nodeId) else old(table)
    {
      if ok {
        table := MarkId(table, nodeId);
      }
      done := ok;
    }
  }
}

/** Who stays online, over every run of status writes and explicit offline marks. */
module LeaseProofs {
  import opened Words
  import opened Lease

  datatype Op =
    | StatusWrite(key: string, nodeId: int, now: uint64, ok: Statements)
    | SetOffline(nodeId: int, succeeds: bool)

  function Step(cfg: Config, s: State, op: Op): State {
    match op
    case StatusWrite(key, nodeId, now, ok) => Write(cfg, s, key, nodeId, now, ok)
    case SetOffline(nodeId, succeeds) => if succeeds then s.(rows := MarkId(s.rows, nodeId)) else s
  }

  function Run(cfg: Config, ops: seq<Op>): State {
    if |ops| == 0 then State(map[], 0) else Step(cfg, Run(cfg, ops[..|ops| - 1]), ops[|ops| - 1])
  }

  predicate Renews(op: Op, key: string) {
    op.StatusWrite? && op.key == key && op.ok.replace
  }

  /** When `w` is the last successful status write of `key`. */
  predicate LastRenewal(ops: seq<Op>, key: string, w: nat) {
    w < |ops| && Renews(ops[w], key) && forall j | w < j < |ops| :: !Renews(ops[j], key)
  }

  /** At time `now` a time stamp counts as at least `interval` old: it is, or the clock has not
      reached the interval yet and the unsigned difference wraps. */
  predicate Old(now: uint64, interval: Seconds, active: uint64) {
    if interval <= now then active + interval <= now else active + interval <= now + TWO_64
  }

  lemma CutoffIsAge(now: uint64, interval: Seconds, active: uint64)
    ensures active <= Cutoff(now, interval) <==> Old(now, interval, active)
  {
  }

  /** An operation that marks offline a row written for `nodeId` at time `active`. */
  predicate Marks(cfg: Config, op: Op, nodeId: int, active: uint64) {
    match op
    case StatusWrite(_, _, now, ok) => ok.replace && ok.mark && Old(now, cfg.offlineInterval, active)
    case SetOffline(id, succeeds) => succeeds && id == nodeId
  }

  /** One operation on the row of a node that it does not renew. */
  lemma RowAfterStep(cfg: Config, s: State, op: Op, key: string)
    requires !Renews(op, key)
    ensures var t := Step(cfg, s, op);
            && (key in t.rows ==> key in s.rows && t.rows[key].nodeId == s.rows[key].nodeId
                                  && t.rows[key].activeTime == s.rows[key].activeTime)
            && (key in s.rows && key !in t.rows ==> !s.rows[key].online)
            && (key in s.rows && key in t.rows ==>
                  (t.rows[key].online <==>
                     s.rows[key].online && !Marks(cfg, op, s.rows[key].nodeId, s.rows[key].activeTime)))
  {
    if op.StatusWrite? && key in s.rows {
      CutoffIsAge(op.now, cfg.offlineInterval, s.rows[key].activeTime);
    }
    hide Cutoff, Old;
  }

  lemma RowAfterRenewal(cfg: Config, s: State, op: Op, key: string)
    requires Renews(op, key)
    ensures var t := Step(cfg, s, op);
            && key in t.rows
            && t.rows[key] == Row(op.nodeId, op.now, !Marks(cfg, op, op.nodeId, op.now))
  {
    CutoffIsAge(op.now, cfg.offlineInterval, op.now);
    hide Cutoff, Old;
  }

  /** A node is online exactly if nothing since its last successful status write, that write
      included, marked its row; its row then still carries that write's id and time. */
  lemma {:induction false} OnlineIff(cfg: Config, ops: seq<Op>, key: string, w: nat)
    requires LastRenewal(ops, key, w)
    ensures var rows := Run(cfg, ops).rows;
            && (key in rows && rows[key].online <==>
                  forall j | w <= j < |ops| :: !Marks(cfg, ops[j], ops[w].nodeId, ops[w].now))
            && (key in rows ==> rows[key].nodeId == ops[w].nodeId && rows[key].activeTime == ops[w].now)
  {
    hide Step, Marks;
    var before, op := ops[..|ops| - 1], ops[|ops| - 1];
    if w == |ops| - 1 {
      RowAfterRenewal(cfg, Run(cfg, before), op, key);
    } else {
      assert before[w] == ops[w];
      OnlineIff(cfg, before, key, w);
      RowAfterStep(cfg, Run(cfg, before), op, key);
      assert forall j | w <= j < |before| :: before[j] == ops[j];
    }
  }

  /** A check while the clock is still below the interval: the difference wraps, far enough
      to reach a row written at `active`. */
  predicate WrapsOver(op: Op, interval: Seconds, active: uint64) {
    op.StatusWrite? && op.ok.replace && op.ok.mark && op.now < interval && active <= op.now - interval + TWO_64
  }

  /** Lease safety: a node whose last status write is less than the offline interval old at
      every status write of anybody since, and which nobody sets offline, is online and has its
      row, if and only if no check since took place with the clock below the interval. */
  lemma {:induction false} LeaseSafetyIff(cfg: Config, ops: seq<Op>, key: string, w: nat)
    requires LastRenewal(ops, key, w)
    requires forall j | w <= j < |ops| && ops[j].StatusWrite? :: ops[j].now - ops[w].now < cfg.offlineInterval
    requires forall j | w <= j < |ops| && ops[j].SetOffline? :: ops[j].nodeId != ops[w].nodeId
    ensures var rows := Run(cfg, ops).rows;
            key in rows && rows[key] == Row(ops[w].nodeId, ops[w].now, true) <==>
            forall j | w <= j < |ops| :: !WrapsOver(ops[j], cfg.offlineInterval, ops[w].now)
  {
    forall j | w <= j < |ops|
      ensures Marks(cfg, ops[j], ops[w].nodeId, ops[w].now) <==>
              WrapsOver(ops[j], cfg.offlineInterval, ops[w].now)
    {
    }
    OnlineIff(cfg, ops, key, w);
  }

  /** Before the clock reaches the intervals the cutoffs wrap: the row just written is marked
      at once, and the next check that may delete deletes it, however young it is. */
  lemma EarlyClockMarksAndDeletes(cfg: Config, s: State, key: string, other: string, nodeId: int, id: int,
                                  t: uint64, u: uint64)
    requires key != other && s.lastCheck <= t && t + cfg.checkInterval <= u
    requires t < cfg.offlineInterval && u < cfg.deleteInterval
    ensures var all := Statements(true, true, true);
            var s1 := Write(cfg, s, key, nodeId, t, all);
            var s2 := Write(cfg, s1, other, id, u, all);
            key in s1.rows && !s1.rows[key].online && key !in s2.rows
  {
    CutoffIsAge(t, cfg.offlineInterval, t);
    CutoffIsAge(u, cfg.deleteInterval, t);
    hide Cutoff;
  }

  /** `i` is the operation that took the row of `key` offline for good. */
  ghost predicate TookOffline(cfg: Config, ops: seq<Op>, key: string, i: nat) {
    && i < |ops|
    && key in Run(cfg, ops[..i + 1]).rows && !Run(cfg, ops[..i + 1]).rows[key].online
    && (key in Run(cfg, ops[..i]).rows ==> Run(cfg, ops[..i]).rows[key].online || Renews(ops[i], key))
    && forall j | i < j < |ops| :: !Renews(ops[j], key)
  }

  lemma {:induction false} OfflineHasCause(cfg: Config, ops: seq<Op>, key: string)
    requires key in Run(cfg, ops).rows && !Run(cfg, ops).rows[key].online
    ensures exists i: nat :: TookOffline(cfg, ops, key, i)
    ensures exists w: nat :: LastRenewal(ops, key, w) && ops[w].now == Run(cfg, ops).rows[key].activeTime
  {
    hide Step;
    var before, op := ops[..|ops| - 1], ops[|ops| - 1];
    var s := Run(cfg, before);
    assert ops[..|ops|] == ops;
    if Renews(op, key) {
      RowAfterRenewal(cfg, s, op, key);
      assert TookOffline(cfg, ops, key, |ops| - 1);
      assert LastRenewal(ops, key, |ops| - 1);
    } else {
      RowAfterStep(cfg, s, op, key);
      RowHasRenewal(cfg, before, key);
      var w: nat :| LastRenewal(before, key, w) && before[w].now == s.rows[key].activeTime;
      assert LastRenewal(ops, key, w);
      if s.rows[key].online {
        assert TookOffline(cfg, ops, key, |ops| - 1);
      } else {
        OfflineHasCause(cfg, before, key);
        var i: nat :| TookOffline(cfg, before, key, i);
        assert before[..i + 1] == ops[..i + 1] && before[..i] == ops[..i];
        assert TookOffline(cfg, ops, key, i);
      }
    }
  }

  lemma {:induction false} RowHasRenewal(cfg: Config, ops: seq<Op>, key: string)
    requires key in Run(cfg, ops).rows
    ensures exists w: nat :: LastRenewal(ops, key, w) && ops[w].now == Run(cfg, ops).rows[key].activeTime
  {
    hide Step;
    var before, op := ops[..|ops| - 1], ops[|ops| - 1];
    if Renews(op, key) {
      RowAfterRenewal(cfg, Run(cfg, before), op, key);
      assert LastRenewal(ops, key, |ops| - 1);
    } else {
      RowAfterStep(cfg, Run(cfg, before), op, key);
      RowHasRenewal(cfg, before, key);
      var w: nat :| LastRenewal(before, key, w) && before[w].now == Run(cfg, before).rows[key].activeTime;
      assert LastRenewal(ops, key, w);
    }
  }

  /** A row is deleted only if an earlier operation took it offline, with no successful write
      in between, and its last write lies at least the delete interval back, unless the clock
      has not reached that interval yet. */
  lemma DeletedOnlyAfterMark(cfg: Config, ops: seq<Op>, op: Op, key: string)
    requires key in Run(cfg, ops).rows && key !in Step(cfg, Run(cfg, ops), op).rows
    ensures exists i: nat :: TookOffline(cfg, ops, key, i)
    ensures op.StatusWrite?
    ensures exists w: nat :: LastRenewal(ops, key, w) && Old(op.now, cfg.deleteInterval, ops[w].now)
  {
    hide Run, TookOffline, LastRenewal;
    var row := Run(cfg, ops).rows[key];
    assert !row.online && op.StatusWrite? && row.activeTime <= Cutoff(op.now, cfg.deleteInterval);
    CutoffIsAge(op.now, cfg.deleteInterval, row.activeTime);
    hide Step;
    OfflineHasCause(cfg, ops, key);
  }

  // ----- when rows are deleted -----

  /** The times of the status writes after which overdue rows were deleted: the first successful
      one at least the interval after the clock's zero, and then each first successful one at
      least the interval after the one before. */
  function CheckTimes(interval: Seconds, ops: seq<Op>): seq<uint64> {
    if |ops| == 0 then []
    else
      var times, op := CheckTimes(interval, ops[..|ops| - 1]), ops[|ops| - 1];
      if op.StatusWrite? && op.ok.replace && Latest(times) + interval <= op.now then times + [op.now] else times
  }

  function Latest(times: seq<uint64>): uint64 {
    if times == [] then 0 else times[|times| - 1]
  }

  lemma {:induction false} LastCheckIs(cfg: Config, ops: seq<Op>)
    ensures Run(cfg, ops).lastCheck == Latest(CheckTimes(cfg.checkInterval, ops))
  {
    hide ClearOverdue, MarkInactive, MarkId, Replace;
    if |ops| > 0 {
      LastCheckIs(cfg, ops[..|ops| - 1]);
    }
  }

  ghost predicate Apart(interval: Seconds, times: seq<uint64>) {
    forall j, k | 0 <= j < k < |times| :: times[j] + interval <= times[k]
  }

  lemma OneMoreApart(interval: Seconds, times: seq<uint64>, now: uint64)
    requires Apart(interval, times) && Latest(times) + interval <= now
    ensures Apart(interval, times + [now])
  {
    var more := times + [now];
    forall j, k | 0 <= j < k < |more| ensures more[j] + interval <= more[k] {
      if k == |times| {
        assert j < |times| - 1 ==> times[j] + interval <= times[|times| - 1];
      } else {
        assert times[j] + interval <= times[k];
      }
    }
  }

  /** No two checks are closer together than the interval, and none is put off: a successful
      status write is one, or less than the interval after the last. */
  lemma {:induction false} ChecksAreRegular(interval: Seconds, ops: seq<Op>)
    ensures Apart(interval, CheckTimes(interval, ops))
    ensures |ops| > 0 && ops[|ops| - 1].StatusWrite? && ops[|ops| - 1].ok.replace && interval > 0 ==>
              ops[|ops| - 1].now < Latest(CheckTimes(interval, ops)) + interval
  {
    hide Apart;
    if |ops| > 0 {
      ChecksAreRegular(interval, ops[..|ops| - 1]);
      var times, op := CheckTimes(interval, ops[..|ops| - 1]), ops[|ops| - 1];
      if op.StatusWrite? && Latest(times) + interval <= op.now {
        OneMoreApart(interval, times, op.now);
      }
    } else {
      NoneApart(interval);
    }
  }

  lemma NoneApart(interval: Seconds)
    ensures Apart(interval, [])
  {
  }

  /** A row is deleted exactly by another node's status write that is due for deleting, if the
      row was marked since its own last write, and that write lies at least the delete interval
      back, or the clock has not reached the interval and the difference wraps. */
  lemma DeletedIff(cfg: Config, ops: seq<Op>, op: Op, key: string, w: nat)
    requires LastRenewal(ops, key, w) && key in Run(cfg, ops).rows
    ensures key !in Step(cfg, Run(cfg, ops), op).rows <==>
              && op.StatusWrite? && op.key != key && op.ok.replace && op.ok.clear
              && Latest(CheckTimes(cfg.checkInterval, ops)) + cfg.checkInterval <= op.now
              && (exists j :: w <= j < |ops| && Marks(cfg, ops[j], ops[w].nodeId, ops[w].now))
              && Old(op.now, cfg.deleteInterval, ops[w].now)
  {
    OnlineIff(cfg, ops, key, w);
    LastCheckIs(cfg, ops);
    if op.StatusWrite? {
      CutoffIsAge(op.now, cfg.deleteInterval, ops[w].now);
    }
    hide Run, Marks, Cutoff, Old, CheckTimes;
  }
}
