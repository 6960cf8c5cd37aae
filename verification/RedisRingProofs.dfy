/** What the ring keeps over every run of additions, re-additions and deletions. */
module RedisRingProofs {
  import opened Options
  import opened Words
  import opened Text
  import opened RedisRing
  import Wire

  ghost predicate NoDuplicates(ks: seq<uint32>) {
    forall i, j | 0 <= i < j < |ks| :: ks[i] != ks[j]
  }

  // ----- the three point-map updates, without their order -----

  lemma {:induction false} InsertAllIs(points: map<uint32, Pair>, ks: seq<uint32>, pair: Pair)
    ensures var m := InsertAll(points, ks, pair);
            && (forall k :: k in m <==> k in points || k in ks)
            && (forall k | k in m :: m[k] == if k in points then points[k] else pair)
  {
    if |ks| > 0 {
      InsertAllIs(points, ks[..|ks| - 1], pair);
      assert ks == ks[..|ks| - 1] + [ks[|ks| - 1]];
    }
  }

  lemma {:induction false} ReaddressAllIs(points: map<uint32, Pair>, ks: seq<uint32>, pair: Pair)
    ensures var m := ReaddressAll(points, ks, pair);
            && (forall k :: k in m <==> k in points)
            && (forall k | k in m :: m[k] == if k in ks then pair else points[k])
  {
    if |ks| > 0 {
      ReaddressAllIs(points, ks[..|ks| - 1], pair);
      assert ks == ks[..|ks| - 1] + [ks[|ks| - 1]];
    }
  }

  lemma NoDuplicatesSnoc(ks: seq<uint32>, k: uint32)
    ensures NoDuplicates(ks + [k]) <==> NoDuplicates(ks) && k !in ks
  {
    var all := ks + [k];
    assert forall i | 0 <= i < |ks| :: all[i] == ks[i];
    if NoDuplicates(all) {
      assert forall i | 0 <= i < |ks| :: all[i] != all[|ks|];
    }
  }

  /** Erasing is defined exactly when the points are distinct and all present. */
  lemma {:induction false} EraseAllIs(points: map<uint32, Pair>, ks: seq<uint32>)
    ensures EraseAll(points, ks).Some? <==> NoDuplicates(ks) && forall k | k in ks :: k in points
    ensures EraseAll(points, ks).Some? ==>
              var m := EraseAll(points, ks).value;
              && (forall k :: k in m <==> k in points && k !in ks)
              && (forall k | k in m :: m[k] == points[k])
  {
    if |ks| > 0 {
      var front, last := ks[..|ks| - 1], ks[|ks| - 1];
      EraseAllIs(points, front);
      NoDuplicatesSnoc(front, last);
      hide NoDuplicates;
      assert ks == front + [last];
      assert forall k :: k in ks <==> k in front || k == last;
    }
  }

  // ----- collisions -----

  /** No two points of the identities in `ids` coincide, within a node or across nodes. */
  ghost predicate CollisionFree(cfg: Config, ids: set<CString>) {
    && (forall id | id in ids :: NoDuplicates(PointsOf(cfg, id)))
    && (forall a, b | a in ids && b in ids && a != b :: Disjoint(PointsOf(cfg, a), PointsOf(cfg, b)))
  }

  ghost predicate Disjoint(s: seq<uint32>, t: seq<uint32>) {
    forall k | k in s :: k !in t
  }

  // ----- runs -----

  datatype Op = AddNode(id: CString, pair: Pair) | DelNode(id: CString)

  function Exec(cfg: Config, r: Ring, op: Op): Option<Ring> {
    match op
    case AddNode(id, pair) => Some(Add(cfg, r, id, pair))
    case DelNode(id) => Delete(r, id)
  }

  /** A run from the empty ring; `None` once a deletion erased a missing point. */
  function Run(cfg: Config, ops: seq<Op>): Option<Ring> {
    if |ops| == 0 then Some(EMPTY)
    else
      match Run(cfg, ops[..|ops| - 1])
      case None => None
      case Some(r) => Exec(cfg, r, ops[|ops| - 1])
  }

  /** The surviving identities with their last addresses: all that a run should leave. */
  function Live(ops: seq<Op>): map<CString, Pair> {
    if |ops| == 0 then map[]
    else
      var live := Live(ops[..|ops| - 1]);
      match ops[|ops| - 1]
      case AddNode(id, pair) => live[id := pair]
      case DelNode(id) => live - {id}
  }

  ghost predicate Over(ops: seq<Op>, ids: set<CString>) {
    forall i | 0 <= i < |ops| :: ops[i].id in ids
  }

  /** The ring holds exactly the live nodes, and each of their points leads to its owner. */
  ghost predicate Agrees(cfg: Config, r: Ring, live: map<CString, Pair>) {
    && (forall id :: id in r.nodes <==> id in live)
    && (forall id | id in live :: r.nodes[id] == RedisNodeAttr(live[id], PointsOf(cfg, id)))
    && PointsAgree(cfg, r.points, live)
  }

  ghost predicate PointsAgree(cfg: Config, points: map<uint32, Pair>, live: map<CString, Pair>) {
    && (forall k | k in points :: exists id :: Owns(cfg, live, id, k))
    && (forall id, k | Owns(cfg, live, id, k) :: k in points && points[k] == live[id])
  }

  ghost predicate Owns(cfg: Config, live: map<CString, Pair>, id: CString, k: uint32) {
    id in live && k in PointsOf(cfg, id)
  }

  lemma AgreesUnique(cfg: Config, r: Ring, s: Ring, live: map<CString, Pair>)
    requires Agrees(cfg, r, live) && Agrees(cfg, s, live)
    ensures r == s
  {
    hide PointsOf;
    assert r.nodes == s.nodes;
    forall k | k in r.points ensures k in s.points && s.points[k] == r.points[k] {
      var id :| Owns(cfg, live, id, k);
    }
    forall k | k in s.points ensures k in r.points {
      var id :| Owns(cfg, live, id, k);
    }
    assert r.points == s.points;
  }

  /** A fresh node's points are not yet in the ring. */
  lemma FreshPointsAbsent(cfg: Config, r: Ring, live: map<CString, Pair>, ids: set<CString>, id: CString)
    requires CollisionFree(cfg, ids) && live.Keys <= ids && id in ids && id !in live
    requires Agrees(cfg, r, live)
    ensures forall k | k in PointsOf(cfg, id) :: k !in r.points
  {
    hide PointsOf;
    forall k | k in r.points ensures k !in PointsOf(cfg, id) {
      var o :| Owns(cfg, live, o, k);
      assert Disjoint(PointsOf(cfg, o), PointsOf(cfg, id));
    }
  }

  /** Giving the points `ks` to `id` keeps the agreement of points and owners. */
  lemma OwnPointsAgree(cfg: Config, live: map<CString, Pair>, points: map<uint32, Pair>, points': map<uint32, Pair>,
                       id: CString, pair: Pair)
    requires PointsAgree(cfg, points, live)
    requires forall o | o in live && o != id :: Disjoint(PointsOf(cfg, o), PointsOf(cfg, id))
    requires forall k :: k in points' <==> k in points || k in PointsOf(cfg, id)
    requires forall k | k in points' :: points'[k] == if k in PointsOf(cfg, id) then pair else points[k]
    ensures PointsAgree(cfg, points', live[id := pair])
  {
    hide PointsOf;
    var next := live[id := pair];
    forall k | k in points' ensures exists o :: Owns(cfg, next, o, k) {
      if k in PointsOf(cfg, id) {
        assert Owns(cfg, next, id, k);
      } else {
        var o :| Owns(cfg, live, o, k);
        assert Owns(cfg, next, o, k);
      }
    }
    forall o, k | Owns(cfg, next, o, k) ensures k in points' && points'[k] == next[o] {
      if o != id {
        assert Owns(cfg, live, o, k);
        assert Disjoint(PointsOf(cfg, o), PointsOf(cfg, id));
      }
    }
  }

  /** What an addition does: the node gets its pair, and so do all its points. */
  lemma AddIs(cfg: Config, r: Ring, live: map<CString, Pair>, ids: set<CString>, id: CString, pair: Pair)
    requires CollisionFree(cfg, ids) && live.Keys <= ids && id in ids
    requires Agrees(cfg, r, live)
    ensures var s, ks := Add(cfg, r, id, pair), PointsOf(cfg, id);
            && s.nodes == r.nodes[id := RedisNodeAttr(pair, ks)]
            && (forall k :: k in s.points <==> k in r.points || k in ks)
            && (forall k | k in s.points :: s.points[k] == if k in ks then pair else r.points[k])
  {
    var ks := PointsOf(cfg, id);
    if id in live {
      ReaddressAllIs(r.points, ks, pair);
      OwnPointsPresent(cfg, r, live, id);
    } else {
      FreshPointsAbsent(cfg, r, live, ids, id);
      InsertAllIs(r.points, ks, pair);
    }
    hide PointsOf, InsertAll, ReaddressAll, CollisionFree, PointsAgree;
  }

  lemma AddPointsAgree(cfg: Config, r: Ring, live: map<CString, Pair>, ids: set<CString>, id: CString, pair: Pair)
    requires CollisionFree(cfg, ids) && live.Keys <= ids && id in ids
    requires Agrees(cfg, r, live)
    ensures PointsAgree(cfg, Add(cfg, r, id, pair).points, live[id := pair])
  {
    AddIs(cfg, r, live, ids, id, pair);
    hide PointsOf, Add, PointsAgree, NoDuplicates;
    forall o | o in live && o != id ensures Disjoint(PointsOf(cfg, o), PointsOf(cfg, id)) {
      assert o in ids;
    }
    hide Disjoint, CollisionFree;
    OwnPointsAgree(cfg, live, r.points, Add(cfg, r, id, pair).points, id, pair);
  }

  lemma AddAgrees(cfg: Config, r: Ring, live: map<CString, Pair>, ids: set<CString>, id: CString, pair: Pair)
    requires CollisionFree(cfg, ids) && live.Keys <= ids && id in ids
    requires Agrees(cfg, r, live)
    ensures Agrees(cfg, Add(cfg, r, id, pair), live[id := pair])
  {
    hide PointsOf, Add, PointsAgree, CollisionFree;
    AddIs(cfg, r, live, ids, id, pair);
    AddPointsAgree(cfg, r, live, ids, id, pair);
  }

  lemma OwnPointsPresent(cfg: Config, r: Ring, live: map<CString, Pair>, id: CString)
    requires Agrees(cfg, r, live) && id in live
    ensures forall k | k in PointsOf(cfg, id) :: k in r.points
  {
    hide PointsOf;
    forall k | k in PointsOf(cfg, id) ensures k in r.points {
      assert Owns(cfg, live, id, k);
    }
  }

  /** Taking the points of `id` away keeps the agreement of points and owners. */
  lemma OtherPointsAgree(cfg: Config, live: map<CString, Pair>, points: map<uint32, Pair>, points': map<uint32, Pair>,
                         id: CString)
    requires PointsAgree(cfg, points, live)
    requires forall o | o in live && o != id :: Disjoint(PointsOf(cfg, o), PointsOf(cfg, id))
    requires forall k :: k in points' <==> k in points && k !in PointsOf(cfg, id)
    requires forall k | k in points' :: points'[k] == points[k]
    ensures PointsAgree(cfg, points', live - {id})
  {
    hide PointsOf;
    var next := live - {id};
    forall k | k in points' ensures exists o :: Owns(cfg, next, o, k) {
      var o :| Owns(cfg, live, o, k);
      assert Owns(cfg, next, o, k);
    }
    forall o, k | Owns(cfg, next, o, k) ensures k in points' && points'[k] == next[o] {
      assert Owns(cfg, live, o, k);
      assert Disjoint(PointsOf(cfg, o), PointsOf(cfg, id));
    }
  }

  lemma DeleteAgrees(cfg: Config, r: Ring, live: map<CString, Pair>, ids: set<CString>, id: CString)
    requires CollisionFree(cfg, ids) && live.Keys <= ids && id in ids
    requires Agrees(cfg, r, live)
    ensures Delete(r, id).Some? && Agrees(cfg, Delete(r, id).value, live - {id})
  {
    hide PointsOf;
    if id in live {
      var ks := PointsOf(cfg, id);
      OwnPointsPresent(cfg, r, live, id);
      EraseAllIs(r.points, ks);
      hide EraseAll;
      OtherPointsAgree(cfg, live, r.points, Delete(r, id).value.points, id);
    } else {
      assert live - {id} == live;
    }
  }

  /** Over collision-free identities every run is defined and ends in agreement with the
      surviving nodes. */
  lemma {:induction false} RunAgrees(cfg: Config, ids: set<CString>, ops: seq<Op>)
    requires CollisionFree(cfg, ids) && Over(ops, ids)
    ensures Run(cfg, ops).Some? && Agrees(cfg, Run(cfg, ops).value, Live(ops))
    ensures Live(ops).Keys <= ids
  {
    if |ops| > 0 {
      var before, op := ops[..|ops| - 1], ops[|ops| - 1];
      RunAgrees(cfg, ids, before);
      assert op.id in ids;
      var r := Run(cfg, before).value;
      hide Agrees, CollisionFree, Add, Delete;
      match op
      case AddNode(id, pair) => AddAgrees(cfg, r, Live(before), ids, id, pair);
      case DelNode(id) => DeleteAgrees(cfg, r, Live(before), ids, id);
    }
  }

  /** History independence: the ring is determined by the surviving nodes alone. */
  lemma HistoryIndependence(cfg: Config, ids: set<CString>, ops: seq<Op>, ops': seq<Op>)
    requires CollisionFree(cfg, ids) && Over(ops, ids) && Over(ops', ids)
    requires Live(ops) == Live(ops')
    ensures Run(cfg, ops).Some? && Run(cfg, ops) == Run(cfg, ops')
  {
    hide *;
    RunAgrees(cfg, ids, ops);
    RunAgrees(cfg, ids, ops');
    AgreesUnique(cfg, Run(cfg, ops).value, Run(cfg, ops').value, Live(ops));
  }

  lemma RunSnoc(cfg: Config, ops: seq<Op>, op: Op)
    requires Run(cfg, ops).Some?
    ensures Run(cfg, ops + [op]) == Exec(cfg, Run(cfg, ops).value, op)
  {
    assert (ops + [op])[..|ops|] == ops;
  }

  lemma LiveSnoc(ops: seq<Op>, op: Op)
    ensures Live(ops + [op]) == if op.AddNode? then Live(ops)[op.id := op.pair] else Live(ops) - {op.id}
  {
    assert (ops + [op])[..|ops|] == ops;
  }

  /** Adding a node and deleting it again restores the ring. */
  lemma AddThenDeleteRestores(cfg: Config, ids: set<CString>, ops: seq<Op>, id: CString, pair: Pair)
    requires CollisionFree(cfg, ids) && Over(ops, ids) && id in ids && id !in Live(ops)
    ensures Run(cfg, ops + [AddNode(id, pair), DelNode(id)]) == Run(cfg, ops)
  {
    var longer := ops + [AddNode(id, pair)];
    var longest := longer + [DelNode(id)];
    assert longest == ops + [AddNode(id, pair), DelNode(id)];
    LiveSnoc(ops, AddNode(id, pair));
    LiveSnoc(longer, DelNode(id));
    hide Run, Live, CollisionFree;
    assert Live(ops)[id := pair] - {id} == Live(ops);
    HistoryIndependence(cfg, ids, longest, ops);
  }

  /** Every run over `ids` is defined if and only if the points of `ids` do not collide:
      two nodes that share a point are enough to erase a point that is gone. */
  lemma RunsDefinedIffCollisionFree(cfg: Config, ids: set<CString>)
    ensures (forall ops | Over(ops, ids) :: Run(cfg, ops).Some?) <==> CollisionFree(cfg, ids)
  {
    hide PointsOf, Run;
    if CollisionFree(cfg, ids) {
      forall ops | Over(ops, ids) ensures Run(cfg, ops).Some? {
        RunAgrees(cfg, ids, ops);
      }
    } else if id :| id in ids && !NoDuplicates(PointsOf(cfg, id)) {
      OwnCollisionBreaks(cfg, id);
      var ops := [AddNode(id, Pair("", "")), DelNode(id)];
      assert Over(ops, ids) && Run(cfg, ops) == None;
    } else {
      var a, b :| a in ids && b in ids && a != b && !Disjoint(PointsOf(cfg, a), PointsOf(cfg, b));
      var k :| k in PointsOf(cfg, a) && k in PointsOf(cfg, b);
      SharedPointBreaks(cfg, a, b, k);
      var p := Pair("", "");
      var ops := [AddNode(a, p), AddNode(b, p), DelNode(a), DelNode(b)];
      assert Over(ops, ids) && Run(cfg, ops) == None;
    }
  }

  lemma OwnCollisionBreaks(cfg: Config, id: CString)
    requires !NoDuplicates(PointsOf(cfg, id))
    ensures Run(cfg, [AddNode(id, Pair("", "")), DelNode(id)]) == None
  {
    var p := Pair("", "");
    RunSnoc(cfg, [], AddNode(id, p));
    RunSnoc(cfg, [AddNode(id, p)], DelNode(id));
    EraseAllIs(InsertAll(map[], PointsOf(cfg, id), p), PointsOf(cfg, id));
    assert [AddNode(id, p)] + [DelNode(id)] == [AddNode(id, p), DelNode(id)];
    hide PointsOf, EraseAll, InsertAll, Run;
    assert [] + [AddNode(id, p)] == [AddNode(id, p)];
  }

  lemma SharedPointBreaks(cfg: Config, a: CString, b: CString, k: uint32)
    requires a != b && k in PointsOf(cfg, a) && k in PointsOf(cfg, b)
    ensures var p := Pair("", ""); Run(cfg, [AddNode(a, p), AddNode(b, p), DelNode(a), DelNode(b)]) == None
  {
    var p := Pair("", "");
    var ops1: seq<Op> := [AddNode(a, p)];
    var ops2 := ops1 + [AddNode(b, p)];
    var ops3 := ops2 + [DelNode(a)];
    assert ops3 + [DelNode(b)] == [AddNode(a, p), AddNode(b, p), DelNode(a), DelNode(b)];
    RunSnoc(cfg, [], AddNode(a, p));
    assert [] + [AddNode(a, p)] == ops1;
    RunSnoc(cfg, ops1, AddNode(b, p));
    hide PointsOf, EraseAll, InsertAll, ReaddressAll, Run;
    var r := Run(cfg, ops2).value;
    assert r.nodes[a].points == PointsOf(cfg, a) && r.nodes[b].points == PointsOf(cfg, b);
    RunSnoc(cfg, ops2, DelNode(a));
    EraseAllIs(r.points, PointsOf(cfg, a));
    if Delete(r, a).Some? {
      var s := Delete(r, a).value;
      RunSnoc(cfg, ops3, DelNode(b));
      EraseAllIs(s.points, PointsOf(cfg, b));
    } else {
      RunNone(cfg, ops3, DelNode(b));
    }
  }

  lemma RunNone(cfg: Config, ops: seq<Op>, op: Op)
    requires Run(cfg, ops) == None
    ensures Run(cfg, ops + [op]) == None
  {
    assert (ops + [op])[..|ops|] == ops;
  }

  // ----- size of the ring -----

  lemma {:induction false} InsertAllSize(points: map<uint32, Pair>, ks: seq<uint32>, pair: Pair)
    requires NoDuplicates(ks) && forall k | k in ks :: k !in points
    ensures |InsertAll(points, ks, pair)| == |points| + |ks|
  {
    if |ks| > 0 {
      var front, last := ks[..|ks| - 1], ks[|ks| - 1];
      assert ks == front + [last];
      InsertAllSize(points, front, pair);
      InsertAllIs(points, front, pair);
      assert last in ks && last !in front;
    }
  }

  lemma {:induction false} EraseAllSize(points: map<uint32, Pair>, ks: seq<uint32>)
    requires EraseAll(points, ks).Some?
    ensures |EraseAll(points, ks).value| == |points| - |ks|
  {
    if |ks| > 0 {
      EraseAllSize(points, ks[..|ks| - 1]);
    }
  }

  /** Four points for every four virtual nodes. */
  function PointsPerNode(cfg: Config): nat {
    if cfg.virtualNodeNum < 0 then 0 else 4 * (cfg.virtualNodeNum / 4)
  }

  /** How many nodes one operation adds. */
  function Growth(live: map<CString, Pair>, op: Op): int {
    match op
    case AddNode(id, _) => if id in live then 0 else 1
    case DelNode(id) => if id in live then -1 else 0
  }

  lemma AddSize(cfg: Config, r: Ring, live: map<CString, Pair>, ids: set<CString>, id: CString, pair: Pair)
    requires CollisionFree(cfg, ids) && live.Keys <= ids && id in ids && Agrees(cfg, r, live)
    ensures |Add(cfg, r, id, pair).points| == |r.points| + if id in live then 0 else PointsPerNode(cfg)
  {
    var ks := PointsOf(cfg, id);
    assert |ks| == PointsPerNode(cfg);
    if id in live {
      ReaddressAllIs(r.points, ks, pair);
      assert ReaddressAll(r.points, ks, pair).Keys == r.points.Keys;
    } else {
      FreshPointsAbsent(cfg, r, live, ids, id);
      InsertAllSize(r.points, ks, pair);
    }
    hide PointsOf, PointsPerNode, PointsAgree, NoDuplicates, InsertAll, ReaddressAll;
  }

  lemma DeleteSize(cfg: Config, r: Ring, live: map<CString, Pair>, id: CString)
    requires Agrees(cfg, r, live) && Delete(r, id).Some?
    ensures |Delete(r, id).value.points| == |r.points| - if id in live then PointsPerNode(cfg) else 0
  {
    var ks := PointsOf(cfg, id);
    assert |ks| == PointsPerNode(cfg);
    hide PointsOf, PointsPerNode, PointsAgree;
    if id in live {
      EraseAllSize(r.points, ks);
    }
  }

  lemma ExecSize(cfg: Config, r: Ring, live: map<CString, Pair>, ids: set<CString>, op: Op)
    requires CollisionFree(cfg, ids) && live.Keys <= ids && op.id in ids && Agrees(cfg, r, live)
    requires Exec(cfg, r, op).Some?
    ensures |Exec(cfg, r, op).value.points| == |r.points| + Growth(live, op) * PointsPerNode(cfg)
  {
    match op
    case AddNode(id, pair) => AddSize(cfg, r, live, ids, id, pair);
    case DelNode(id) => DeleteSize(cfg, r, live, id);
    hide Add, Delete, Agrees, CollisionFree, PointsPerNode;
  }

  lemma RingSizeStep(cfg: Config, ids: set<CString>, ops: seq<Op>, op: Op)
    requires CollisionFree(cfg, ids) && Over(ops, ids) && op.id in ids
    requires Run(cfg, ops).Some? && |Run(cfg, ops).value.points| == |Live(ops)| * PointsPerNode(cfg)
    requires Run(cfg, ops + [op]).Some?
    ensures |Run(cfg, ops + [op]).value.points| == |Live(ops + [op])| * PointsPerNode(cfg)
  {
    hide *;
    RunAgrees(cfg, ids, ops);
    RunSnoc(cfg, ops, op);
    ExecSize(cfg, Run(cfg, ops).value, Live(ops), ids, op);
    LiveSize(ops, op);
    Distribute(|Live(ops)|, Growth(Live(ops), op), PointsPerNode(cfg));
  }

  /** Each live node contributes four points for every four virtual nodes, and nothing else is there. */
  lemma RingSize(cfg: Config, ids: set<CString>, ops: seq<Op>)
    requires CollisionFree(cfg, ids) && Over(ops, ids)
    ensures Run(cfg, ops).Some?
    ensures var r, perNode := Run(cfg, ops).value,
                              if cfg.virtualNodeNum < 0 then 0 else 4 * (cfg.virtualNodeNum / 4);
            && |r.points| == |Live(ops)| * perNode
            && forall id | id in r.nodes :: |r.nodes[id].points| == perNode
  {
    RunAgrees(cfg, ids, ops);
    RingCount(cfg, ids, ops);
    assert forall id | id in Live(ops) :: |PointsOf(cfg, id)| == PointsPerNode(cfg);
    hide Run, PointsAgree, CollisionFree, PointsOf;
  }

  lemma {:induction false} RingCount(cfg: Config, ids: set<CString>, ops: seq<Op>)
    requires CollisionFree(cfg, ids) && Over(ops, ids)
    ensures Run(cfg, ops).Some?
    ensures |Run(cfg, ops).value.points| == |Live(ops)| * PointsPerNode(cfg)
  {
    RunAgrees(cfg, ids, ops);
    if |ops| == 0 {
      assert |Live(ops)| == 0 && |Run(cfg, ops).value.points| == 0;
    } else {
      var before, op := ops[..|ops| - 1], ops[|ops| - 1];
      assert Over(before, ids) && op.id in ids && before + [op] == ops;
      RingCount(cfg, ids, before);
      RingSizeStep(cfg, ids, before, op);
    }
  }

  lemma LiveSize(ops: seq<Op>, op: Op)
    ensures |Live(ops + [op])| == |Live(ops)| + Growth(Live(ops), op)
  {
    var live := Live(ops);
    assert (ops + [op])[..|ops|] == ops;
    if op.AddNode? {
      assert |live[op.id := op.pair]| == |live| + if op.id in live then 0 else 1;
    } else if op.id in live {
      assert |live - {op.id}| == |live| - 1;
    } else {
      assert live - {op.id} == live;
    }
  }

  lemma Distribute(a: int, b: int, c: int)
    ensures (a + b) * c == a * c + b * c
  {
  }

  // ----- lookup against a naive search -----

  /** How far a clockwise walk from `h` goes before it meets `k`. */
  function Clockwise(h: uint32, k: uint32): uint32 {
    (k - h) % TWO_32
  }

  lemma ClockwiseIs(h: uint32, k: uint32)
    ensures Clockwise(h, k) == if h <= k then k - h else k - h + TWO_32
  {
  }

  /** `lower_bound` with wrap-around finds the one point at smallest clockwise distance. */
  lemma RouteKeyIsNearest(points: map<uint32, Pair>, h: uint32, k: uint32)
    requires points != map[] && k in points
    ensures Clockwise(h, RouteKey(points, h)) <= Clockwise(h, k)
    ensures Clockwise(h, RouteKey(points, h)) == Clockwise(h, k) ==> k == RouteKey(points, h)
  {
    ClockwiseIs(h, RouteKey(points, h));
    ClockwiseIs(h, k);
  }

  /** After any run over collision-free identities a key is routed to the current address
      of the one live node that owns the point nearest clockwise to the key's hash. */
  lemma LookupFindsNearestOwner(cfg: Config, ids: set<CString>, ops: seq<Op>, h: uint32, id: CString, k: uint32)
    requires CollisionFree(cfg, ids) && Over(ops, ids)
    requires Owns(cfg, Live(ops), id, k)
    requires forall o, j | Owns(cfg, Live(ops), o, j) :: Clockwise(h, k) <= Clockwise(h, j)
    ensures Run(cfg, ops).Some? && Run(cfg, ops).value.points != map[]
    ensures Route(Run(cfg, ops).value.points, h) == Live(ops)[id]
  {
    RunAgrees(cfg, ids, ops);
    var points := Run(cfg, ops).value.points;
    assert k in points;
    var n := RouteKey(points, h);
    var o :| Owns(cfg, Live(ops), o, n);
    RouteKeyIsNearest(points, h, k);
  }

  // ----- how few keys move -----

  /** A fresh node takes over some keys and moves no other, whether or not points collide. */
  lemma AddingMovesOnlyToNewNode(cfg: Config, r: Ring, id: CString, pair: Pair, h: uint32)
    requires r.points != map[] && id !in r.nodes
    ensures var s := Add(cfg, r, id, pair);
            && s.points != map[]
            && var k, k' := RouteKey(r.points, h), RouteKey(s.points, h);
            if k' in r.points then k' == k && Route(s.points, h) == Route(r.points, h)
            else k' in PointsOf(cfg, id) && Route(s.points, h) == pair
  {
    hide PointsOf;
    var s := Add(cfg, r, id, pair);
    InsertAllIs(r.points, PointsOf(cfg, id), pair);
    var k, k' := RouteKey(r.points, h), RouteKey(s.points, h);
    assert k in s.points;
    RouteKeyIsNearest(s.points, h, k);
    if k' in r.points {
      RouteKeyIsNearest(r.points, h, k');
    }
  }

  /** Deleting a node leaves every key alone that was not routed to one of its points. */
  lemma DeletingMovesOnlyOwnKeys(r: Ring, id: CString, h: uint32)
    requires Delete(r, id).Some? && Delete(r, id).value.points != map[]
    ensures r.points != map[]
    ensures var s := Delete(r, id).value;
            (id in r.nodes ==> RouteKey(r.points, h) !in r.nodes[id].points)
            ==> RouteKey(s.points, h) == RouteKey(r.points, h) && Route(s.points, h) == Route(r.points, h)
  {
    var s := Delete(r, id).value;
    if id in r.nodes {
      EraseAllIs(r.points, r.nodes[id].points);
      var k' := RouteKey(s.points, h);
      assert k' in r.points;
      var k := RouteKey(r.points, h);
      RouteKeyIsNearest(r.points, h, k');
      if k in s.points {
        RouteKeyIsNearest(s.points, h, k);
      }
    }
  }

  /** Giving a node new addresses moves no key and changes the answer for its own points only. */
  lemma ReaddressingMovesNothing(cfg: Config, r: Ring, id: CString, pair: Pair, h: uint32)
    requires r.points != map[] && id in r.nodes
    ensures var s := Add(cfg, r, id, pair);
            && s.points != map[]
            && RouteKey(s.points, h) == RouteKey(r.points, h)
            && Route(s.points, h) == if RouteKey(r.points, h) in r.nodes[id].points then pair else Route(r.points, h)
  {
    var s := Add(cfg, r, id, pair);
    ReaddressAllIs(r.points, r.nodes[id].points, pair);
    var k, k' := RouteKey(r.points, h), RouteKey(s.points, h);
    assert k in s.points && k' in r.points;
    RouteKeyIsNearest(r.points, h, k');
    RouteKeyIsNearest(s.points, h, k);
  }

  // ----- the points and the digests they come from -----

  lemma FourAt(front: seq<uint32>, last: seq<uint32>, i: nat)
    requires |last| == 4
    ensures 4 * i == |front| ==> (front + last)[4 * i..4 * i + 4] == last
    ensures 4 * i + 4 <= |front| ==> (front + last)[4 * i..4 * i + 4] == front[4 * i..4 * i + 4]
  {
  }

  lemma {:induction false} PointsAt(cfg: Config, id: CString, n: nat, i: nat)
    requires i < n
    ensures PointsUpTo(cfg, id, n)[4 * i..4 * i + 4] == DigestPoints(cfg.md5(VirtualName(id, i)))
  {
    var front, last := PointsUpTo(cfg, id, n - 1), DigestPoints(cfg.md5(VirtualName(id, n - 1)));
    assert PointsUpTo(cfg, id, n) == front + last && |front| == 4 * (n - 1) && |last| == 4;
    hide *;
    FourAt(front, last, i);
    if i < n - 1 {
      PointsAt(cfg, id, n - 1, i);
    }
  }

  lemma WordSpelled(a: byte, b: byte, c: byte, d: byte)
    ensures var v := 0x100_0000 * d as int + 0x1_0000 * c as int + 0x100 * b as int + a as int;
            v < TWO_32 && Wire.Fixed32(v) == [a, b, c, d]
  {
    var v := 0x100_0000 * d as int + 0x1_0000 * c as int + 0x100 * b as int + a as int;
    var b', c' := b as int + 0x100 * (c as int + 0x100 * d as int), c as int + 0x100 * d as int;
    DivModUnique(v, 0x100, b', a);
    DivModUnique(b', 0x100, c', b);
    DivModUnique(v, 0x1_0000, c', a as int + 0x100 * b as int);
    DivModUnique(v, 0x100_0000, d, a as int + 0x100 * b as int + 0x1_0000 * c as int);
    DivModUnique(c', 0x100, d, c);
  }

  /** A digest point is the word that four bytes of the digest spell in little-endian order. */
  lemma PointSpellsBytes(d: Digest, j: nat)
    requires j < 4
    ensures Wire.Fixed32(DigestPoint(d, j)) == d[4 * j..4 * j + 4]
  {
    WordSpelled(d[j * 4], d[1 + j * 4], d[2 + j * 4], d[3 + j * 4]);
    hide Wire.Fixed32;
    assert d[4 * j..4 * j + 4] == [d[j * 4], d[1 + j * 4], d[2 + j * 4], d[3 + j * 4]];
  }

  lemma FourWords(d: Digest)
    ensures DigestPoints(d)[0] == DigestPoint(d, 0) && DigestPoints(d)[1] == DigestPoint(d, 1)
    ensures DigestPoints(d)[2] == DigestPoint(d, 2) && DigestPoints(d)[3] == DigestPoint(d, 3)
    ensures d == d[0..4] + d[4..8] + d[8..12] + d[12..16]
  {
  }

  /** The four points of a virtual node, laid out as little-endian words, are its digest. */
  lemma PointsSpellDigest(cfg: Config, id: CString, i: nat)
    requires i < HashCount(cfg)
    ensures var ks := PointsOf(cfg, id);
            && |ks| == POINTS_PER_HASH * HashCount(cfg)
            && Wire.Fixed32(ks[4 * i]) + Wire.Fixed32(ks[4 * i + 1]) + Wire.Fixed32(ks[4 * i + 2])
               + Wire.Fixed32(ks[4 * i + 3]) == cfg.md5(VirtualName(id, i))
  {
    var ks, d := PointsOf(cfg, id), cfg.md5(VirtualName(id, i));
    PointsAt(cfg, id, HashCount(cfg), i);
    assert |ks| == POINTS_PER_HASH * HashCount(cfg);
    hide *;
    var four := ks[4 * i..4 * i + 4];
    assert four[0] == ks[4 * i] && four[1] == ks[4 * i + 1] && four[2] == ks[4 * i + 2] && four[3] == ks[4 * i + 3];
    FourWords(d);
    PointSpellsBytes(d, 0);
    PointSpellsBytes(d, 1);
    PointSpellsBytes(d, 2);
    PointSpellsBytes(d, 3);
  }

  // ----- virtual names in 32 bytes -----

  /** With room for `room` digits behind "id#", the name keeps that many digits of the counter. */
  lemma NameKeeps(id: CString, i: nat, room: nat)
    requires |id| + room == 30
    ensures VirtualName(id, i) == id + "#" + Take(Digits(i), room)
  {
    assert (id + "#" + Digits(i))[..|id| + 1] == id + "#";
    if |Digits(i)| > room {
      assert (id + "#" + Digits(i))[..31] == id + "#" + Digits(i)[..room];
    }
  }

  lemma NamesKeptApart(id: CString, i: nat, j: nat, room: nat)
    requires |id| + room == 30 && i < j < Pow10(room)
    ensures VirtualName(id, i) != VirtualName(id, j)
  {
    assert room > 0;
    NameKeeps(id, i, room);
    NameKeeps(id, j, room);
    DigitCount(i, room);
    DigitCount(j, room);
    if Digits(i) == Digits(j) {
      DigitsInjective(i, j);
    }
    assert (id + "#" + Digits(i))[|id| + 1..] == Digits(i);
    assert (id + "#" + Digits(j))[|id| + 1..] == Digits(j);
  }

  lemma NamesCutTogether(id: CString, room: nat)
    requires |id| + room == 30 && room > 0
    ensures Pow10(room - 1) < Pow10(room)
    ensures VirtualName(id, Pow10(room - 1)) == VirtualName(id, Pow10(room))
  {
    var i, j := Pow10(room - 1), Pow10(room);
    assert j == 10 * i;
    DigitCount(j, room);
    DigitCount(i, room);
    PowerDigits(room);
    NameKeeps(id, i, room);
    NameKeeps(id, j, room);
    assert |Digits(j)| > room && |Digits(i)| <= room;
    assert Digits(j)[..room] == Digits(i);
  }

  lemma LongNamesCollide(id: CString)
    requires |id| >= 30
    ensures VirtualName(id, 0) == VirtualName(id, 1)
  {
    var stem := id + "#";
    assert (stem + Decimal(0))[..31] == stem[..31] == (stem + Decimal(1))[..31];
    hide Decimal;
  }

  /** The names hashed for one node stay distinct exactly as long as no counter is cut off. */
  lemma NamesDistinctIff(id: CString, count: nat)
    ensures (forall i, j | 0 <= i < j < count :: VirtualName(id, i) != VirtualName(id, j))
            <==> count <= 1 || (|id| <= 30 && count <= Pow10(30 - |id|))
  {
    if |id| >= 30 {
      LongNamesCollide(id);
      hide VirtualName;
      assert |id| == 30 ==> Pow10(0) == 1;
    } else {
      var room := 30 - |id|;
      NamesCutTogether(id, room);
      hide VirtualName, Pow10;
      if count <= Pow10(room) {
        forall i, j | 0 <= i < j < count ensures VirtualName(id, i) != VirtualName(id, j) {
          NamesKeptApart(id, i, j, room);
        }
      } else {
        assert 0 <= Pow10(room - 1) < Pow10(room) < count;
      }
    }
  }

  /** Beyond that the node collides with itself whatever the digest function is, and deleting
      it after adding it erases points that are gone. */
  lemma CutNamesBreakDeleting(cfg: Config, id: CString, i: nat, j: nat)
    requires i < j < HashCount(cfg) && VirtualName(id, i) == VirtualName(id, j)
    ensures !NoDuplicates(PointsOf(cfg, id))
    ensures Run(cfg, [AddNode(id, Pair("", "")), DelNode(id)]) == None
  {
    var ks := PointsOf(cfg, id);
    PointsAt(cfg, id, HashCount(cfg), i);
    PointsAt(cfg, id, HashCount(cfg), j);
    assert ks[4 * i] == ks[4 * i..4 * i + 4][0] && ks[4 * j] == ks[4 * j..4 * j + 4][0];
    hide PointsOf, Run;
    OwnCollisionBreaks(cfg, id);
  }

  /** Whatever the digest function, a node whose counters are cut off cannot be deleted again. */
  lemma CutOffNodesCollide(cfg: Config, id: CString)
    requires HashCount(cfg) > 1 && !(|id| <= 30 && HashCount(cfg) <= Pow10(30 - |id|))
    ensures !NoDuplicates(PointsOf(cfg, id))
    ensures Run(cfg, [AddNode(id, Pair("", "")), DelNode(id)]) == None
  {
    NamesDistinctIff(id, HashCount(cfg));
    hide *;
    var i, j :| 0 <= i < j < HashCount(cfg) && VirtualName(id, i) == VirtualName(id, j);
    CutNamesBreakDeleting(cfg, id, i, j);
  }

  /** With the default number of virtual nodes that begins at identities of 29 characters. */
  lemma DefaultNamesDistinctIff(cfg: Config, id: CString)
    requires cfg.virtualNodeNum == DEFAULT_VIRTUAL_NODES
    ensures (forall i, j | 0 <= i < j < HashCount(cfg) :: VirtualName(id, i) != VirtualName(id, j)) <==> |id| < 29
    ensures |id| >= 29 ==> Run(cfg, [AddNode(id, Pair("", "")), DelNode(id)]) == None
  {
    assert HashCount(cfg) == 50;
    assert Pow10(0) == 1 && Pow10(1) == 10 && Pow10(2) == 100;
    if |id| < 29 {
      Pow10Monotone(2, 30 - |id|);
    } else {
      hide Run;
      CutOffNodesCollide(cfg, id);
    }
    hide VirtualName, HashCount, Run;
    NamesDistinctIff(id, HashCount(cfg));
  }

  lemma {:induction false} Pow10Monotone(j: nat, k: nat)
    requires j <= k
    ensures Pow10(j) <= Pow10(k)
  {
    if j < k {
      Pow10Monotone(j, k - 1);
    }
  }
}
