/** The consistent-hash ring of the data proxy: a map from node identities to their
    addresses and points, and an ordered map from points to addresses. */
module RedisRing {
  import opened Options
  import opened Words
  import opened Text
  import KeyHashes

  /** Master and slave address, "ip:port" each. */
  datatype Pair = Pair(master: string, slave: string)

  datatype RedisNodeAttr = RedisNodeAttr(pair: Pair, points: seq<uint32>)

  datatype Ring = Ring(nodes: map<CString, RedisNodeAttr>, points: map<uint32, Pair>)

  type Digest = d: seq<byte> | |d| == 16 witness seq(16, _ => 0)

  /** What a session is built with: the digest function and the number of virtual nodes. */
  datatype Config = Config(md5: string -> Digest, virtualNodeNum: int)

  const EMPTY := Ring(map[], map[])
  const POINTS_PER_HASH := 4
  const DEFAULT_VIRTUAL_NODES := 200

  // ----- the points of a node -----

  function Take(s: string, n: nat): string {
    if |s| <= n then s else s[..n]
  }

  /** snprintf into 32 bytes keeps 31 characters. */
  function VirtualName(id: CString, i: nat): string {
    Take(id + "#" + Decimal(i), 31)
  }

  function DigestPoint(d: Digest, j: nat): uint32
    requires j < 4
  {
    0x100_0000 * d[3 + j * 4] as int + 0x1_0000 * d[2 + j * 4] as int + 0x100 * d[1 + j * 4] as int + d[j * 4] as int
  }

  function DigestPoints(d: Digest): seq<uint32> {
    [DigestPoint(d, 0), DigestPoint(d, 1), DigestPoint(d, 2), DigestPoint(d, 3)]
  }

  function PointsUpTo(cfg: Config, id: CString, n: nat): (points: seq<uint32>)
    ensures |points| == POINTS_PER_HASH * n
  {
    if n == 0 then [] else PointsUpTo(cfg, id, n - 1) + DigestPoints(cfg.md5(VirtualName(id, n - 1)))
  }

  /** The integer division of C truncates, so a negative count gives no virtual node. */
  function HashCount(cfg: Config): nat {
    if cfg.virtualNodeNum < 0 then 0 else cfg.virtualNodeNum / POINTS_PER_HASH
  }

  function PointsOf(cfg: Config, id: CString): seq<uint32> {
    PointsUpTo(cfg, id, HashCount(cfg))
  }

  // ----- updates of the point map -----

  /** `std::map::insert` of every point in turn: a point already present keeps its pair. */
  function InsertAll(points: map<uint32, Pair>, ks: seq<uint32>, pair: Pair): map<uint32, Pair> {
    if |ks| == 0 then points
    else
      var m := InsertAll(points, ks[..|ks| - 1], pair);
      if ks[|ks| - 1] in m then m else m[ks[|ks| - 1] := pair]
  }

  lemma InsertNone(points: map<uint32, Pair>, pair: Pair)
    ensures InsertAll(points, [], pair) == points
  {
  }

  lemma InsertOneMore(points: map<uint32, Pair>, ks: seq<uint32>, k: uint32, pair: Pair)
    ensures var m := InsertAll(points, ks, pair);
            InsertAll(points, ks + [k], pair) == if k in m then m else m[k := pair]
  {
    assert (ks + [k])[..|ks|] == ks;
  }

  function ReaddressAll(points: map<uint32, Pair>, ks: seq<uint32>, pair: Pair): map<uint32, Pair> {
    if |ks| == 0 then points
    else
      var m := ReaddressAll(points, ks[..|ks| - 1], pair);
      if ks[|ks| - 1] in m then m[ks[|ks| - 1] := pair] else m
  }

  /** `erase(find(k))` of every point in turn; `None` where `find` gives the end iterator,
      whose erasure the standard leaves undefined. */
  function EraseAll(points: map<uint32, Pair>, ks: seq<uint32>): Option<map<uint32, Pair>> {
    if |ks| == 0 then Some(points)
    else
      match EraseAll(points, ks[..|ks| - 1])
      case None => None
      case Some(m) => if ks[|ks| - 1] in m then Some(m - {ks[|ks| - 1]}) else None
  }

  // ----- operations on the whole state -----

  function Add(cfg: Config, r: Ring, id: CString, pair: Pair): Ring {
    if id in r.nodes then
      Ring(r.nodes[id := r.nodes[id].(pair := pair)], ReaddressAll(r.points, r.nodes[id].points, pair))
    else
      Ring(r.nodes[id := RedisNodeAttr(pair, PointsOf(cfg, id))], InsertAll(r.points, PointsOf(cfg, id), pair))
  }

  function Delete(r: Ring, id: CString): Option<Ring> {
    if id !in r.nodes then Some(r)
    else
      match EraseAll(r.points, r.nodes[id].points)
      case None => None
      case Some(points) => Some(Ring(r.nodes - {id}, points))
  }

  // ----- lookup -----

  function Least(s: set<uint32>): (k: uint32)
    requires s != {}
    ensures k in s && forall j | j in s :: k <= j
  {
    LeastExists(s);
    var k :| k in s && forall j | j in s :: k <= j;
    k
  }

  lemma LeastExists(s: set<uint32>)
    requires s != {}
    ensures exists k :: k in s && forall j | j in s :: k <= j
  {
    var x :| x in s;
    LeastUpTo(s, x);
  }

  lemma {:induction false} LeastUpTo(s: set<uint32>, x: uint32)
    requires x in s
    ensures exists k :: k in s && forall j | j in s :: k <= j
    decreases x
  {
    if y :| y in s && y < x {
      LeastUpTo(s, y);
    }
  }

  /** `lower_bound`: the least key not below `h`, if any. */
  function LowerBound(points: map<uint32, Pair>, h: uint32): (k: Option<uint32>)
    ensures k.Some? ==> k.value in points && h <= k.value && forall j | j in points && h <= j :: k.value <= j
    ensures k.None? ==> forall j | j in points :: j < h
  {
    var above := set j | j in points.Keys && h <= j;
    assert forall j | j in points && h <= j :: j in above;
    if above == {} then None else Some(Least(above))
  }

  /** The point a hash is routed to; past the last point the search wraps to the first. */
  function RouteKey(points: map<uint32, Pair>, h: uint32): (k: uint32)
    requires points != map[]
    ensures k in points
  {
    match LowerBound(points, h)
    case Some(k) => k
    case None => Least(points.Keys)
  }

  function Route(points: map<uint32, Pair>, h: uint32): Pair
    requires points != map[]
  {
    points[RouteKey(points, h)]
  }

  /** The session object. The attributes it allocates per node are owned by the map and
      never shared, so they are values here. */
  class SessionRedisNode {
    const hashAlgorithm: int
    const cfg: Config
    var mapRedisNode: map<CString, RedisNodeAttr>
    var mapRedisNodeHash: map<uint32, Pair>

    constructor (hashAlgorithm: int, cfg: Config)
      ensures this.hashAlgorithm == hashAlgorithm && this.cfg == cfg
      ensures View() == EMPTY
    {
      this.hashAlgorithm := hashAlgorithm;
      this.cfg := cfg;
      mapRedisNode := map[];
      mapRedisNodeHash := map[];
    }

    function View(): Ring
      reads this
    {
      Ring(mapRedisNode, mapRedisNodeHash)
    }

    /** The lookup dereferences an iterator of the ring, so the ring must not be empty. */
    method GetRedisNode(hashKey: KeyHashes.Key) returns (ok: bool, master: string, slave: string)
      requires mapRedisNodeHash != map[]
      ensures ok
      ensures Pair(master, slave) == Route(mapRedisNodeHash, KeyHashes.KeyHash(hashAlgorithm, hashKey))
    {
      var keyHash := KeyHashes.HashOf(hashAlgorithm, hashKey);
      var iter := LowerBound(mapRedisNodeHash, keyHash);
      if iter == None {
        var begin := Least(mapRedisNodeHash.Keys);
        master := mapRedisNodeHash[begin].master;
        slave := mapRedisNodeHash[begin].slave;
      } else {
        master := mapRedisNodeHash[iter.value].master;
        slave := mapRedisNodeHash[iter.value].slave;
      }
      return true, master, slave;
    }

    method AddRedisNode(id: CString, master: string, slave: string)
      modifies this
      ensures View() == Add(cfg, old(View()), id, Pair(master, slave))
    {
      hide DigestPoint, VirtualName, InsertAll;
      var pair := Pair(master, slave);
      if id !in mapRedisNode {
        var vecHash: seq<uint32> := [];
        InsertNone(mapRedisNodeHash, pair);
        for i := 0 to HashCount(cfg)
          invariant vecHash == PointsUpTo(cfg, id, i)
          invariant mapRedisNode == old(mapRedisNode)
          invariant mapRedisNodeHash == InsertAll(old(mapRedisNodeHash), vecHash, pair)
        {
          var digest := cfg.md5(VirtualName(id, i));
          ghost var before := vecHash;
          for j := 0 to POINTS_PER_HASH
            invariant vecHash == before + DigestPoints(digest)[..j]
            invariant mapRedisNode == old(mapRedisNode)
            invariant mapRedisNodeHash == InsertAll(old(mapRedisNodeHash), vecHash, pair)
          {
            var k := DigestPoint(digest, j);
            InsertOneMore(old(mapRedisNodeHash), vecHash, k, pair);
            vecHash := vecHash + [k];
            if k !in mapRedisNodeHash {
              mapRedisNodeHash := mapRedisNodeHash[k := pair];
            }
          }
        }
        mapRedisNode := mapRedisNode[id := RedisNodeAttr(pair, vecHash)];
      } else {
        var vecHash := mapRedisNode[id].points;
        mapRedisNode := mapRedisNode[id := RedisNodeAttr(pair, vecHash)];
        for i := 0 to |vecHash|
          invariant mapRedisNode == old(mapRedisNode)[id := RedisNodeAttr(pair, vecHash)]
          invariant mapRedisNodeHash == ReaddressAll(old(mapRedisNodeHash), vecHash[..i], pair)
        {
          assert vecHash[..i + 1][..i] == vecHash[..i];
          if vecHash[i] in mapRedisNodeHash {
            mapRedisNodeHash := mapRedisNodeHash[vecHash[i] := pair];
          }
        }
        assert vecHash[..|vecHash|] == vecHash;
      }
    }

    /** Erasing needs every point of the node to be in the ring still. */
    method DelRedisNode(id: CString)
      requires Delete(View(), id).Some?
      modifies this
      ensures Delete(old(View()), id) == Some(View())
    {
      if id in mapRedisNode {
        var vecHash := mapRedisNode[id].points;
        for i := 0 to |vecHash|
          invariant mapRedisNode == old(mapRedisNode)
          invariant EraseAll(old(mapRedisNodeHash), vecHash[..i]) == Some(mapRedisNodeHash)
        {
          assert vecHash[..i + 1][..i] == vecHash[..i];
          EraseAllPrefix(old(mapRedisNodeHash), vecHash, i + 1);
          mapRedisNodeHash := mapRedisNodeHash - {vecHash[i]};
        }
        assert vecHash[..|vecHash|] == vecHash;
        mapRedisNode := mapRedisNode - {id};
      }
    }
  }

  lemma {:induction false} EraseAllPrefix(points: map<uint32, Pair>, ks: seq<uint32>, n: nat)
    requires n <= |ks| && EraseAll(points, ks).Some?
    ensures EraseAll(points, ks[..n]).Some?
  {
    if n == |ks| {
      assert ks[..n] == ks;
    } else {
      EraseAllPrefix(points, ks[..|ks| - 1], n);
      assert ks[..|ks| - 1][..n] == ks[..n];
    }
  }
}
