/** What every run of registrations, reports and removals keeps: the registry's integrity,
    and that each live node knows exactly the live nodes it needs. */
module RegistryProofs {
  import opened Options
  import opened Text
  import opened Registry

  // ----- keys -----

  /** The last colon of a key is the one before the port. */
  lemma LastColon(ip: CString, port: int)
    ensures var s := KeyOf(ip, port);
            |ip| < |s| && s[|ip|] == ':' && forall i | |ip| < i < |s| :: s[i] != ':'
    ensures KeyOf(ip, port)[..|ip|] == ip && KeyOf(ip, port)[|ip| + 1..] == Decimal(port)
  {
    assert forall i | 0 <= i < |Decimal(port)| :: Decimal(port)[i] != ':';
  }

  /** "ip:port" determines ip and port, whatever the ip contains. */
  lemma KeyInjective(ip: CString, port: int, ip': CString, port': int)
    requires KeyOf(ip, port) == KeyOf(ip', port')
    ensures ip == ip' && port == port'
  {
    LastColon(ip, port);
    LastColon(ip', port');
    hide KeyOf;
    DecimalInjective(port, port');
  }

  // ----- integrity of the registry -----

  /** Every entry sits under its own key and has a type of the table; identifiers are
      positive and pairwise distinct. */
  ghost predicate Integrity(c: Center, nodes: Nodes) {
    && (forall k | k in nodes :: k == NodeKey(nodes[k]) && Needed(c.types, nodes[k].nodeType).Some?)
    && (forall k | k in nodes :: nodes[k].nodeId > 0)
    && (forall j, k | j in nodes && k in nodes && j != k :: nodes[j].nodeId != nodes[k].nodeId)
  }

  /** With integrity, updating a registered node cannot fail, and keeps its identity. */
  lemma UpdateNeverFails(c: Center, nodes: Nodes, info: NodeInfo)
    requires Integrity(c, nodes) && NodeKey(info) in nodes
    ensures var entry := nodes[NodeKey(info)];
            var updated := Update(entry, info);
            && SameAddress(entry, info)
            && PeerOf(updated) == PeerOf(entry) && updated.nodeId == entry.nodeId
            && updated.workerNum == info.workerNum && updated.load == info.load
  {
    var entry := nodes[NodeKey(info)];
    KeyInjective(entry.nodeIp, entry.nodePort, info.nodeIp, info.nodePort);
  }

  lemma NewEntryKeepsIntegrity(c: Center, nodes: Nodes, info: NodeInfo)
    requires Integrity(c, nodes)
    requires NodeKey(info) !in nodes && Needed(c.types, info.nodeType).Some?
    ensures Integrity(c, nodes[NodeKey(info) := info.(nodeId := TopId(nodes) + 1)])
  {
    var entry := info.(nodeId := TopId(nodes) + 1);
    assert NodeKey(entry) == NodeKey(info);
    assert IsTopId(nodes, TopId(nodes));
    hide Needed, NodeKey, TopId;
  }

  lemma RegistrationKeepsIntegrity(c: Center, nodes: Nodes, info: NodeInfo, db: Database)
    requires Integrity(c, nodes)
    ensures Integrity(c, RegisterNodes(c, nodes, info, db))
    ensures NodeKey(info) in nodes ==>
              RegisterNodes(c, nodes, info, db)[NodeKey(info)].nodeId == nodes[NodeKey(info)].nodeId
  {
    var key := NodeKey(info);
    if key in nodes {
      UpdateNeverFails(c, nodes, info);
      assert NodeKey(Update(nodes[key], info)) == key;
      hide Needed, NodeKey, Update;
    } else if Needed(c.types, info.nodeType).Some? {
      NewEntryKeepsIntegrity(c, nodes, info);
    }
  }

  // ----- what notices teach -----

  type Knowledge = map<Peer, int>

  function Learn(known: Knowledge, entries: seq<Entry>): Knowledge {
    if |entries| == 0 then known
    else
      var last := entries[|entries| - 1];
      Learn(known, entries[..|entries| - 1])[last.peer := last.workerNum]
  }

  /** A notice reaches the node it is addressed to, if there is one. */
  function Deliver(know: map<string, Knowledge>, n: Notice): map<string, Knowledge> {
    if n.to !in know then know
    else
      match n
      case Registered(to, entries) => know[to := Learn(know[to], entries)]
      case Exited(to, entry) => know[to := know[to] - {entry.peer}]
  }

  function DeliverAll(know: map<string, Knowledge>, ns: seq<Notice>): map<string, Knowledge> {
    if |ns| == 0 then know else Deliver(DeliverAll(know, ns[..|ns| - 1]), ns[|ns| - 1])
  }

  lemma {:induction false} DeliverConcat(know: map<string, Knowledge>, xs: seq<Notice>, ys: seq<Notice>)
    ensures DeliverAll(know, xs + ys) == DeliverAll(DeliverAll(know, xs), ys)
  {
    if |ys| == 0 {
      assert xs + ys == xs;
    } else {
      var ns := xs + ys;
      assert ns[..|ns| - 1] == xs + ys[..|ys| - 1] && ns[|ns| - 1] == ys[|ys| - 1];
      DeliverConcat(know, xs, ys[..|ys| - 1]);
    }
  }

  /** What is known afterwards was in the notice, last mention winning, or was known before. */
  lemma {:induction false} LearnIs(known: Knowledge, entries: seq<Entry>, p: Peer)
    ensures p in Learn(known, entries) <==> p in known || exists e :: e in entries && e.peer == p
    ensures p in Learn(known, entries) ==>
              if exists e :: e in entries && e.peer == p
              then exists e :: e in entries && e.peer == p && e.workerNum == Learn(known, entries)[p]
              else p in known && Learn(known, entries)[p] == known[p]
  {
    if |entries| > 0 {
      var front, last := entries[..|entries| - 1], entries[|entries| - 1];
      LearnIs(known, front, p);
      assert entries == front + [last];
      assert last in entries;
      assert forall e | e in front :: e in entries;
      assert forall e | e in entries :: e in front || e == last;
    }
  }

  lemma {:induction false} CopiesAre<T>(needed: seq<string>, name: string, item: T, x: T)
    ensures x in Copies(needed, name, item) <==> x == item && name in needed
  {
    if |needed| > 0 {
      CopiesAre(needed[..|needed| - 1], name, item, x);
      assert needed == needed[..|needed| - 1] + [needed[|needed| - 1]];
    }
  }

  lemma {:induction false} NeededEntriesAre(order: seq<string>, nodes: Nodes, needed: seq<string>, e: Entry)
    requires forall k | k in order :: k in nodes
    ensures e in NeededEntries(order, nodes, needed)
            <==> exists k :: k in order && nodes[k].nodeType in needed && e == EntryOf(nodes[k])
  {
    if |order| > 0 {
      var front, last := order[..|order| - 1], order[|order| - 1];
      NeededEntriesAre(front, nodes, needed, e);
      CopiesAre(needed, nodes[last].nodeType, EntryOf(nodes[last]), e);
      assert order == front + [last];
      assert last in order && forall k | k in front :: k in order;
      assert forall k | k in order :: k in front || k == last;
    }
  }

  lemma DeliverTwice(know: map<string, Knowledge>, n: Notice)
    requires n.Registered? ==> |n.entries| == 1
    ensures Deliver(Deliver(know, n), n) == Deliver(know, n)
  {
    if n.Registered? && n.to in know {
      var e := n.entries[0];
      assert n.entries == [e];
      var once := know[n.to][e.peer := e.workerNum];
      LearnOne(know[n.to], e);
      LearnOne(once, e);
      assert once[e.peer := e.workerNum] == once;
      assert know[n.to := once][n.to := once] == know[n.to := once];
    } else if n.to in know {
      var p := n.entry.peer;
      assert know[n.to] - {p} - {p} == know[n.to] - {p};
    }
  }

  lemma LearnOne(known: Knowledge, e: Entry)
    ensures Learn(known, [e]) == known[e.peer := e.workerNum]
  {
    assert [e][..0] == [];
  }

  /** Sending a notice once per matching type is as good as sending it once. */
  lemma {:induction false} DeliverCopies(know: map<string, Knowledge>, needed: seq<string>, name: string, n: Notice)
    requires n.Registered? ==> |n.entries| == 1
    ensures DeliverAll(know, Copies(needed, name, n)) == if name in needed then Deliver(know, n) else know
  {
    if |needed| > 0 {
      var front, last := needed[..|needed| - 1], needed[|needed| - 1];
      assert needed == front + [last];
      DeliverCopies(know, front, name, n);
      var before := Copies(front, name, n);
      if last == name {
        assert (before + [n])[..|before|] == before;
        DeliverTwice(know, n);
      } else {
        assert before + [] == before;
      }
    }
  }

  ghost predicate Needs(c: Center, name: string, other: string) {
    Needed(c.types, name).Some? && other in Needed(c.types, name).value
  }

  /** What a broadcast does to one node's knowledge. */
  function Told(known: Knowledge, entry: Entry, exit: bool): Knowledge {
    if exit then known - {entry.peer} else known[entry.peer := entry.workerNum]
  }

  lemma {:induction false} BroadcastTeaches(c: Center, know: map<string, Knowledge>, order: seq<string>, nodes: Nodes,
                                            entry: Entry, exit: bool)
    requires Integrity(c, nodes) && (forall k | k in order :: k in nodes)
    ensures var after := DeliverAll(know, Broadcast(c.types, order, nodes, entry, exit));
            && after.Keys == know.Keys
            && forall a | a in know ::
                 after[a] == if a in order && Needs(c, nodes[a].nodeType, entry.peer.nodeType)
                             then Told(know[a], entry, exit) else know[a]
  {
    hide Needed, NodeKey, Copies;
    if |order| > 0 {
      var front, last := order[..|order| - 1], order[|order| - 1];
      assert order == front + [last] && last in order;
      assert forall k | k in front :: k in order;
      BroadcastTeaches(c, know, front, nodes, entry, exit);
      var info := nodes[last];
      var notice := if exit then Exited(NodeKey(info), entry) else Registered(NodeKey(info), [entry]);
      var before := DeliverAll(know, Broadcast(c.types, front, nodes, entry, exit));
      DeliverConcat(know, Broadcast(c.types, front, nodes, entry, exit),
                    ToNode(c.types, info, entry.peer.nodeType, notice));
      if Needed(c.types, info.nodeType).Some? {
        DeliverCopies(before, Needed(c.types, info.nodeType).value, entry.peer.nodeType, notice);
        LearnOne(if last in before then before[last] else map[], entry);
      }
      ToldTwice(if last in know then know[last] else map[], entry, exit);
    }
  }

  lemma ToldTwice(known: Knowledge, entry: Entry, exit: bool)
    ensures Told(Told(known, entry, exit), entry, exit) == Told(known, entry, exit)
  {
  }

  // ----- runs -----

  /** The registry, and what each node, live or gone, remembers of what it was told. */
  datatype System = System(nodes: Nodes, know: map<string, Knowledge>)

  /** `restarted`: the node that registers has forgotten what it was told before. */
  datatype Op =
    | Register(info: NodeInfo, db: Database, order: seq<string>, restarted: bool)
    | Report(info: NodeInfo, db: Database, order: seq<string>, restarted: bool)
    | Remove(key: string, db: Database, order: seq<string>)

  /** What a node that registers still knows. */
  function Remembered(s: System, key: string, restarted: bool): Knowledge {
    if restarted || key !in s.know then map[] else s.know[key]
  }

  ghost function NodesAfter(c: Center, nodes: Nodes, op: Op): Nodes {
    if op.Remove? then nodes - {op.key}
    else if op.Report? && Updates(c, nodes, op.info) then
      nodes[NodeKey(op.info) := Update(nodes[NodeKey(op.info)], op.info)]
    else RegisterNodes(c, nodes, op.info, op.db)
  }

  /** The iteration order an operation used ranges over the registry it left. */
  ghost predicate Legal(c: Center, nodes: Nodes, op: Op) {
    Orders(op.order, NodesAfter(c, nodes, op))
  }

  ghost function SystemRegister(c: Center, s: System, info: NodeInfo, db: Database, order: seq<string>,
                                restarted: bool): System
    requires Orders(order, RegisterNodes(c, s.nodes, info, db))
  {
    var nodes, key := RegisterNodes(c, s.nodes, info, db), NodeKey(info);
    if RegisterCode(c, s.nodes, info, db) != Ok then s
    else
      RegisteredIsThere(c, s.nodes, info, db);
      var know := s.know[key := Remembered(s, key, restarted)];
      System(nodes, DeliverAll(know, RegistrationNotices(c, order, nodes, nodes[key])))
  }

  lemma RegisteredIsThere(c: Center, nodes: Nodes, info: NodeInfo, db: Database)
    ensures RegisterCode(c, nodes, info, db) == Ok <==>
              Needed(c.types, info.nodeType).Some? && NodeKey(info) in RegisterNodes(c, nodes, info, db)
    ensures RegisterCode(c, nodes, info, db) != Ok ==> RegisterNodes(c, nodes, info, db) == nodes
  {
  }

  ghost function SystemRemove(c: Center, s: System, key: string, db: Database, order: seq<string>): System
    requires Orders(order, s.nodes - {key})
  {
    System(s.nodes - {key}, DeliverAll(s.know, RemovalNotices(c, order, s.nodes, key, db)))
  }

  ghost function Step(c: Center, s: System, op: Op): System
    requires Legal(c, s.nodes, op)
  {
    if op.Remove? then SystemRemove(c, s, op.key, op.db, op.order)
    else if op.Report? && Updates(c, s.nodes, op.info) then System(NodesAfter(c, s.nodes, op), s.know)
    else SystemRegister(c, s, op.info, op.db, op.order, op.restarted)
  }

  /** The nodes `a` ought to know: the live ones whose type it needs. */
  ghost predicate Wanted(c: Center, nodes: Nodes, a: string, p: Peer)
    requires a in nodes
  {
    var b := KeyOf(p.ip, p.port);
    b in nodes && PeerOf(nodes[b]) == p && Needs(c, nodes[a].nodeType, p.nodeType)
  }

  /** Each live node has been told all the live nodes it needs. */
  ghost predicate Complete(c: Center, s: System) {
    && s.nodes.Keys <= s.know.Keys
    && forall a, p | a in s.nodes && Wanted(c, s.nodes, a, p) && p != c.self.peer :: p in s.know[a]
  }

  /** And has not been told of any others, the center apart. */
  ghost predicate Exact(c: Center, s: System) {
    && s.nodes.Keys <= s.know.Keys
    && forall a, p | a in s.nodes && p != c.self.peer :: p in s.know[a] <==> Wanted(c, s.nodes, a, p)
  }

  /** And the worker counts it was told are the registry's. */
  ghost predicate Current(c: Center, s: System) {
    forall a, p | a in s.nodes && a in s.know && p != c.self.peer && p in s.know[a] && Wanted(c, s.nodes, a, p) ::
      s.know[a][p] == s.nodes[KeyOf(p.ip, p.port)].workerNum
  }

  /** The newcomer's own notice adds to what it knew the center, every live node it needs with
      its current worker count, and nothing else. */
  lemma NewcomerIsToldWanted(c: Center, known: Knowledge, order: seq<string>, nodes: Nodes, key: string,
                             needed: seq<string>, p: Peer)
    requires Integrity(c, nodes) && Orders(order, nodes) && key in nodes
    requires Needed(c.types, nodes[key].nodeType) == Some(needed) && p != c.self.peer
    ensures var told := Learn(known, NeededEntries(order, nodes, needed) + [c.self]);
            && (p in told <==> p in known || Wanted(c, nodes, key, p))
            && (Wanted(c, nodes, key, p) ==> told[p] == nodes[KeyOf(p.ip, p.port)].workerNum)
            && c.self.peer in told
  {
    var listed := NeededEntries(order, nodes, needed);
    var entries := listed + [c.self];
    hide Needed, NeededEntries, Learn, KeyOf;
    LearnIs(known, entries, p);
    LearnIs(known, entries, c.self.peer);
    assert c.self in entries;
    forall e | e in entries && e.peer == p
      ensures Wanted(c, nodes, key, p) && e.workerNum == nodes[KeyOf(p.ip, p.port)].workerNum
    {
      assert e in listed;
      NeededEntriesAre(order, nodes, needed, e);
      var k :| k in order && nodes[k].nodeType in needed && e == EntryOf(nodes[k]);
      assert KeyOf(p.ip, p.port) == NodeKey(nodes[k]) == k;
    }
    if Wanted(c, nodes, key, p) {
      var b := KeyOf(p.ip, p.port);
      NeededEntriesAre(order, nodes, needed, EntryOf(nodes[b]));
      assert b in order && EntryOf(nodes[b]) in listed;
      assert EntryOf(nodes[b]) in entries;
    }
  }

  // ----- what one operation keeps -----

  /** `wanted` and `known` before and after a node with the given entry has come. */
  lemma WantedAfterArrival(c: Center, before: Nodes, after: Nodes, key: string, a: string, p: Peer)
    requires Integrity(c, before) && Integrity(c, after) && key in after && a in before
    requires after == before[key := after[key]]
    requires key in before ==> PeerOf(after[key]) == PeerOf(before[key])
    ensures Wanted(c, after, a, p) <==>
              Wanted(c, before, a, p) || (p == PeerOf(after[key]) && Needs(c, before[a].nodeType, p.nodeType))
  {
    hide Needed, KeyOf, Needs;
    assert KeyOf(after[key].nodeIp, after[key].nodePort) == NodeKey(after[key]) == key;
    var b := KeyOf(p.ip, p.port);
    if b in before {
      assert NodeKey(before[b]) == b;
    }
  }

  /** What a registration leaves node `a` knowing of peer `p`: the newcomer knows what it
      remembers and all it wants, the others what they knew and, if they need it, the newcomer. */
  ghost predicate Learned(c: Center, s: System, after: Nodes, key: string, kept: Knowledge,
                          know: map<string, Knowledge>, a: string, p: Peer)
    requires key in after && a in after
  {
    && a in know
    && if a == key then
         && (p in know[a] <==> p in kept || Wanted(c, after, key, p))
         && (Wanted(c, after, key, p) ==> know[a][p] == after[KeyOf(p.ip, p.port)].workerNum)
       else if p == PeerOf(after[key]) && Needs(c, after[a].nodeType, p.nodeType) then
         p in know[a] && know[a][p] == after[key].workerNum
       else
         a in s.know && (p in know[a] <==> p in s.know[a]) && (p in know[a] ==> know[a][p] == s.know[a][p])
  }

  ghost predicate AllLearned(c: Center, s: System, after: Nodes, key: string, kept: Knowledge,
                             know: map<string, Knowledge>)
    requires key in after
  {
    && after.Keys <= know.Keys
    && forall a, p | a in after && p != c.self.peer :: Learned(c, s, after, key, kept, know, a, p)
  }

  /** How the broadcast turns what `a` knew into what it has learned. */
  lemma LearnedFrom(c: Center, s: System, after: Nodes, key: string, kept: Knowledge, first: Knowledge,
                    know: map<string, Knowledge>, a: string, p: Peer)
    requires key in after && a in after && a in know && NodeKey(after[key]) == key
    requires if a == key then
               && (p in first <==> p in kept || Wanted(c, after, key, p))
               && (Wanted(c, after, key, p) ==> first[p] == after[KeyOf(p.ip, p.port)].workerNum)
             else a in s.know && first == s.know[a]
    requires know[a] == if Needs(c, after[a].nodeType, after[key].nodeType)
                        then Told(first, EntryOf(after[key]), false) else first
    ensures Learned(c, s, after, key, kept, know, a, p)
  {
    var peer := PeerOf(after[key]);
    assert KeyOf(peer.ip, peer.port) == key;
    hide KeyOf, Needs;
  }

  lemma BroadcastFollows(c: Center, s: System, after: Nodes, key: string, kept: Knowledge, needed: seq<string>,
                         order: seq<string>)
    requires Integrity(c, after) && s.nodes.Keys <= s.know.Keys
    requires key in after && after == s.nodes[key := after[key]] && Orders(order, after)
    requires Needed(c.types, after[key].nodeType) == Some(needed)
    ensures var first := s.know[key := Learn(kept, NeededEntries(order, after, needed) + [c.self])];
            var know := DeliverAll(first, Broadcast(c.types, order, after, EntryOf(after[key]), false));
            AllLearned(c, s, after, key, kept, know)
  {
    var entry := EntryOf(after[key]);
    var told := Learn(kept, NeededEntries(order, after, needed) + [c.self]);
    var first := s.know[key := told];
    var know := DeliverAll(first, Broadcast(c.types, order, after, entry, false));
    BroadcastTeaches(c, first, order, after, entry, false);
    assert NodeKey(after[key]) == key;
    hide Needed, KeyOf, NodeKey, Learn, NeededEntries, Broadcast, DeliverAll, Needs, Learned, Told, Wanted;
    forall a, p | a in after && p != c.self.peer ensures Learned(c, s, after, key, kept, know, a, p) {
      if a == key {
        NewcomerIsToldWanted(c, kept, order, after, key, needed, p);
      }
      LearnedFrom(c, s, after, key, kept, first[a], know, a, p);
    }
  }

  lemma RegistrationTeaches(c: Center, s: System, info: NodeInfo, db: Database, order: seq<string>, restarted: bool)
    requires Integrity(c, s.nodes) && s.nodes.Keys <= s.know.Keys
    requires Orders(order, RegisterNodes(c, s.nodes, info, db)) && RegisterCode(c, s.nodes, info, db) == Ok
    ensures var after, key := RegisterNodes(c, s.nodes, info, db), NodeKey(info);
            var t := SystemRegister(c, s, info, db, order, restarted);
            && t.nodes == after && key in after
            && AllLearned(c, s, after, key, Remembered(s, key, restarted), t.know)
  {
    var after, key := RegisterNodes(c, s.nodes, info, db), NodeKey(info);
    var kept := Remembered(s, key, restarted);
    RegisteredIsThere(c, s.nodes, info, db);
    RegistrationKeepsIntegrity(c, s.nodes, info, db);
    RegisteredPeer(c, s.nodes, info, db);
    assert NodeKey(after[key]) == key;
    var needed := Needed(c.types, after[key].nodeType).value;
    var own := Registered(key, NeededEntries(order, after, needed) + [c.self]);
    FirstNotice(s.know, key, kept, own);
    DeliverConcat(s.know[key := kept], [own], Broadcast(c.types, order, after, EntryOf(after[key]), false));
    BroadcastFollows(c, s, after, key, kept, needed, order);
    hide AllLearned, Needed, NeededEntries, Learn, DeliverAll, Broadcast, Remembered, RegisterNodes, NodeKey;
  }

  /** The registry before and after a registration that succeeded, and who is wanted then. */
  lemma RegistrationArrives(c: Center, nodes: Nodes, info: NodeInfo, db: Database)
    requires Integrity(c, nodes) && RegisterCode(c, nodes, info, db) == Ok
    ensures var after, key := RegisterNodes(c, nodes, info, db), NodeKey(info);
            && key in after && after.Keys == nodes.Keys + {key}
            && (forall b | b in nodes && b != key :: after[b] == nodes[b])
            && (forall a, p | a in nodes ::
                  Wanted(c, after, a, p) <==>
                  Wanted(c, nodes, a, p) || (p == PeerOf(after[key]) && Needs(c, after[a].nodeType, p.nodeType)))
  {
    var after, key := RegisterNodes(c, nodes, info, db), NodeKey(info);
    RegistrationKeepsIntegrity(c, nodes, info, db);
    RegisteredPeer(c, nodes, info, db);
    hide RegisterNodes, Integrity, Wanted, Needs, NodeKey;
    forall a, p | a in nodes
      ensures Wanted(c, after, a, p) <==>
              Wanted(c, nodes, a, p) || (p == PeerOf(after[key]) && Needs(c, after[a].nodeType, p.nodeType))
    {
      WantedAfterArrival(c, nodes, after, key, a, p);
    }
  }

  /** A registration keeps everyone told of all it needs, whatever is remembered or was missed. */
  lemma RegistrationKeepsComplete(c: Center, s: System, info: NodeInfo, db: Database, order: seq<string>,
                                  restarted: bool)
    requires Integrity(c, s.nodes) && Complete(c, s)
    requires Orders(order, RegisterNodes(c, s.nodes, info, db))
    ensures Complete(c, SystemRegister(c, s, info, db, order, restarted))
  {
    RegisteredIsThere(c, s.nodes, info, db);
    if RegisterCode(c, s.nodes, info, db) == Ok {
      hide RegisterCode, RegisterNodes, Integrity, Wanted, Needs, NodeKey, KeyOf, SystemRegister;
      RegistrationTeaches(c, s, info, db, order, restarted);
      RegistrationArrives(c, s.nodes, info, db);
      var t := SystemRegister(c, s, info, db, order, restarted);
      forall a, p | a in t.nodes && Wanted(c, t.nodes, a, p) && p != c.self.peer ensures p in t.know[a] {
        assert Learned(c, s, t.nodes, NodeKey(info), Remembered(s, NodeKey(info), restarted), t.know, a, p);
      }
    }
  }

  /** Whoever registers remembers nobody it does not need any more. */
  ghost predicate NothingStale(c: Center, s: System, info: NodeInfo, db: Database, restarted: bool) {
    var after, key := RegisterNodes(c, s.nodes, info, db), NodeKey(info);
    RegisterCode(c, s.nodes, info, db) == Ok && key in after ==>
      forall p | p in Remembered(s, key, restarted) && p != c.self.peer :: Wanted(c, after, key, p)
  }

  /** A registration keeps knowledge exact if and only if the newcomer brings nothing stale. */
  lemma RegistrationKeepsExactIff(c: Center, s: System, info: NodeInfo, db: Database, order: seq<string>,
                                  restarted: bool)
    requires Integrity(c, s.nodes) && Exact(c, s)
    requires Orders(order, RegisterNodes(c, s.nodes, info, db))
    ensures Exact(c, SystemRegister(c, s, info, db, order, restarted)) <==> NothingStale(c, s, info, db, restarted)
  {
    RegisteredIsThere(c, s.nodes, info, db);
    if RegisterCode(c, s.nodes, info, db) == Ok {
      hide RegisterCode, RegisterNodes, Integrity, Wanted, Needs, NodeKey, KeyOf, SystemRegister;
      RegistrationTeaches(c, s, info, db, order, restarted);
      RegistrationArrives(c, s.nodes, info, db);
      var t, key := SystemRegister(c, s, info, db, order, restarted), NodeKey(info);
      forall a, p | a in t.nodes && p != c.self.peer
        ensures a != key ==> (p in t.know[a] <==> Wanted(c, t.nodes, a, p))
        ensures a == key ==> (p in t.know[a] <==> p in Remembered(s, key, restarted) || Wanted(c, t.nodes, a, p))
      {
        assert Learned(c, s, t.nodes, key, Remembered(s, key, restarted), t.know, a, p);
      }
    }
  }

  /** A node that restarted, that was never seen, or that is live brings nothing stale. */
  lemma NothingStaleUsually(c: Center, s: System, info: NodeInfo, db: Database, restarted: bool)
    requires Integrity(c, s.nodes) && Exact(c, s)
    requires restarted || NodeKey(info) !in s.know || NodeKey(info) in s.nodes
    ensures NothingStale(c, s, info, db, restarted)
  {
    if RegisterCode(c, s.nodes, info, db) == Ok {
      hide RegisterCode, RegisterNodes, Integrity, Wanted, Needs, NodeKey;
      RegistrationArrives(c, s.nodes, info, db);
    }
  }

  lemma FirstNotice(know: map<string, Knowledge>, key: string, kept: Knowledge, own: Notice)
    requires own.Registered? && own.to == key
    ensures DeliverAll(know[key := kept], [own]) == know[key := Learn(kept, own.entries)]
  {
    assert [own][..0] == [];
    hide Learn;
    assert know[key := kept][key := Learn(kept, own.entries)] == know[key := Learn(kept, own.entries)];
  }

  /** A registered node is the one that was there before, or the new one, under its key. */
  lemma RegisteredPeer(c: Center, nodes: Nodes, info: NodeInfo, db: Database)
    requires Integrity(c, nodes) && RegisterCode(c, nodes, info, db) == Ok
    ensures var after, key := RegisterNodes(c, nodes, info, db), NodeKey(info);
            && key in after && after == nodes[key := after[key]]
            && after[key].workerNum == info.workerNum
            && (key in nodes ==> PeerOf(after[key]) == PeerOf(nodes[key]))
  {
    RegisteredIsThere(c, nodes, info, db);
    if NodeKey(info) in nodes {
      UpdateNeverFails(c, nodes, info);
    }
  }

  lemma WantedAfterDeparture(c: Center, nodes: Nodes, key: string, a: string, q: Peer)
    requires Integrity(c, nodes) && key in nodes && a in nodes && a != key
    ensures Wanted(c, nodes - {key}, a, q) <==> q != PeerOf(nodes[key]) && Wanted(c, nodes, a, q)
  {
    var p := PeerOf(nodes[key]);
    assert KeyOf(p.ip, p.port) == NodeKey(nodes[key]) == key;
  }

  lemma AnnouncedRemoval(c: Center, s: System, key: string, db: Database, order: seq<string>)
    requires Integrity(c, s.nodes) && Exact(c, s) && Orders(order, s.nodes - {key})
    requires key in s.nodes && db.statusRow
    ensures Exact(c, SystemRemove(c, s, key, db, order))
  {
    hide Needed, KeyOf, Needs, Broadcast, DeliverAll;
    var after, entry := s.nodes - {key}, EntryOf(s.nodes[key]);
    var know := DeliverAll(s.know, Broadcast(c.types, order, after, entry, true));
    BroadcastTeaches(c, s.know, order, after, entry, true);
    forall a, p | a in after && p != c.self.peer ensures p in know[a] <==> Wanted(c, after, a, p) {
      WantedAfterDeparture(c, s.nodes, key, a, p);
      assert Wanted(c, s.nodes, a, entry.peer) ==> Needs(c, s.nodes[a].nodeType, entry.peer.nodeType);
    }
  }

  lemma SilentRemoval(c: Center, s: System, key: string, db: Database, order: seq<string>)
    requires Integrity(c, s.nodes) && Exact(c, s) && Orders(order, s.nodes - {key})
    requires key in s.nodes && !db.statusRow && PeerOf(s.nodes[key]) != c.self.peer
    ensures Exact(c, SystemRemove(c, s, key, db, order)) <==>
              forall a | a in s.nodes && a != key :: !Needs(c, s.nodes[a].nodeType, s.nodes[key].nodeType)
  {
    hide Needed, KeyOf, Needs;
    var after, p := s.nodes - {key}, PeerOf(s.nodes[key]);
    var t := System(after, s.know);
    forall a | a in after
      ensures Wanted(c, s.nodes, a, p) <==> Needs(c, s.nodes[a].nodeType, p.nodeType)
      ensures forall q | q != c.self.peer :: (q in t.know[a] <==> Wanted(c, after, a, q)) <==>
                q != p || !Needs(c, s.nodes[a].nodeType, p.nodeType)
    {
      assert KeyOf(p.ip, p.port) == NodeKey(s.nodes[key]) == key;
      forall q | q != c.self.peer ensures (q in t.know[a] <==> Wanted(c, after, a, q)) <==>
                q != p || !Needs(c, s.nodes[a].nodeType, p.nodeType)
      {
        WantedAfterDeparture(c, s.nodes, key, a, q);
      }
    }
    if Exact(c, t) {
      forall a | a in s.nodes && a != key ensures !Needs(c, s.nodes[a].nodeType, p.nodeType) {
        assert a in after && (p in t.know[a] <==> Wanted(c, after, a, p));
      }
    }
  }

  /** A removal keeps everyone's knowledge exact if and only if the offline mark was written,
      or there was no such node, or no other live node needs its type (or it posed as the center). */
  lemma RemovalKeepsExactIff(c: Center, s: System, key: string, db: Database, order: seq<string>)
    requires Integrity(c, s.nodes) && Exact(c, s) && Orders(order, s.nodes - {key})
    ensures Exact(c, SystemRemove(c, s, key, db, order)) <==>
              || db.statusRow
              || key !in s.nodes
              || PeerOf(s.nodes[key]) == c.self.peer
              || forall a | a in s.nodes && a != key :: !Needs(c, s.nodes[a].nodeType, s.nodes[key].nodeType)
  {
    if key !in s.nodes {
      assert s.nodes - {key} == s.nodes;
    } else if db.statusRow {
      AnnouncedRemoval(c, s, key, db, order);
    } else if PeerOf(s.nodes[key]) != c.self.peer {
      SilentRemoval(c, s, key, db, order);
    } else {
      CenterLookalikeRemoval(c, s, key, db, order);
    }
  }

  lemma CenterLookalikeRemoval(c: Center, s: System, key: string, db: Database, order: seq<string>)
    requires Integrity(c, s.nodes) && Exact(c, s) && Orders(order, s.nodes - {key})
    requires key in s.nodes && !db.statusRow && PeerOf(s.nodes[key]) == c.self.peer
    ensures Exact(c, SystemRemove(c, s, key, db, order))
  {
    var t := SystemRemove(c, s, key, db, order);
    forall a, q | a in t.nodes && q != c.self.peer ensures q in t.know[a] <==> Wanted(c, t.nodes, a, q) {
      WantedAfterDeparture(c, s.nodes, key, a, q);
    }
  }

  lemma RemovalTeachesOne(c: Center, s: System, key: string, db: Database, order: seq<string>, a: string, p: Peer)
    requires Integrity(c, s.nodes) && s.nodes.Keys <= s.know.Keys && Orders(order, s.nodes - {key})
    requires key in s.nodes && a in s.nodes && a != key && p != PeerOf(s.nodes[key])
    ensures var know := SystemRemove(c, s, key, db, order).know;
            && a in know && (p in know[a] <==> p in s.know[a])
            && (p in know[a] ==> know[a][p] == s.know[a][p])
  {
    if db.statusRow {
      BroadcastTeaches(c, s.know, order, s.nodes - {key}, EntryOf(s.nodes[key]), true);
    }
    hide Needs, Broadcast, DeliverAll, NodeKey, Orders, Integrity;
  }

  /** A removal leaves alone what the others know of anybody else. */
  lemma RemovalTeaches(c: Center, s: System, key: string, db: Database, order: seq<string>)
    requires Integrity(c, s.nodes) && s.nodes.Keys <= s.know.Keys && Orders(order, s.nodes - {key})
    requires key in s.nodes
    ensures var t := SystemRemove(c, s, key, db, order);
            && t.nodes == s.nodes - {key} && t.know.Keys == s.know.Keys
            && forall a, p | a in t.nodes && p != PeerOf(s.nodes[key]) ::
                 && (p in t.know[a] <==> p in s.know[a])
                 && (p in t.know[a] ==> t.know[a][p] == s.know[a][p])
  {
    RemovalKeepsKeys(c, s, key, db, order);
    var t := SystemRemove(c, s, key, db, order);
    hide SystemRemove, Integrity;
    forall a, p | a in t.nodes && p != PeerOf(s.nodes[key])
      ensures p in t.know[a] <==> p in s.know[a]
      ensures p in t.know[a] ==> t.know[a][p] == s.know[a][p]
    {
      RemovalTeachesOne(c, s, key, db, order, a, p);
    }
  }

  lemma RemovalKeepsKeys(c: Center, s: System, key: string, db: Database, order: seq<string>)
    requires Integrity(c, s.nodes) && Orders(order, s.nodes - {key})
    ensures SystemRemove(c, s, key, db, order).nodes == s.nodes - {key}
    ensures SystemRemove(c, s, key, db, order).know.Keys == s.know.Keys
  {
    if key in s.nodes && db.statusRow {
      BroadcastTeaches(c, s.know, order, s.nodes - {key}, EntryOf(s.nodes[key]), true);
    }
    hide Needs, Broadcast, DeliverAll, NodeKey, Orders, Integrity;
  }

  /** A removal, announced or not, keeps everyone told of all it needs. */
  lemma RemovalKeepsComplete(c: Center, s: System, key: string, db: Database, order: seq<string>)
    requires Integrity(c, s.nodes) && Complete(c, s) && Orders(order, s.nodes - {key})
    ensures Complete(c, SystemRemove(c, s, key, db, order))
  {
    if key in s.nodes {
      RemovalTeaches(c, s, key, db, order);
      var t := SystemRemove(c, s, key, db, order);
      hide SystemRemove, Wanted, Integrity;
      forall a, p | a in t.nodes && p != c.self.peer && Wanted(c, t.nodes, a, p) ensures p in t.know[a] {
        WantedAfterDeparture(c, s.nodes, key, a, p);
      }
    } else {
      assert s.nodes - {key} == s.nodes;
    }
  }

  lemma UpdateKeepsExact(c: Center, s: System, info: NodeInfo)
    requires Integrity(c, s.nodes) && NodeKey(info) in s.nodes
    ensures var key := NodeKey(info);
            var t := System(s.nodes[key := Update(s.nodes[key], info)], s.know);
            (Exact(c, s) ==> Exact(c, t)) && (Complete(c, s) ==> Complete(c, t))
  {
    var key := NodeKey(info);
    var after := s.nodes[key := Update(s.nodes[key], info)];
    UpdateNeverFails(c, s.nodes, info);
    hide Needed, KeyOf, Update;
    forall a, p | a in after ensures Wanted(c, after, a, p) <==> Wanted(c, s.nodes, a, p) {
    }
  }

  // ----- every run -----

  ghost predicate LegalRun(c: Center, ops: seq<Op>)
    decreases |ops|, 0
  {
    |ops| > 0 ==>
      && LegalRun(c, ops[..|ops| - 1])
      && Legal(c, Run(c, ops[..|ops| - 1]).nodes, ops[|ops| - 1])
  }

  /** A run from the empty registry, notices arriving as they are sent. */
  ghost function Run(c: Center, ops: seq<Op>): System
    requires LegalRun(c, ops)
    decreases |ops|, 1
  {
    if |ops| == 0 then System(map[], map[]) else Step(c, Run(c, ops[..|ops| - 1]), ops[|ops| - 1])
  }

  lemma StepKeepsIntegrity(c: Center, s: System, op: Op)
    requires Integrity(c, s.nodes) && Legal(c, s.nodes, op)
    ensures Step(c, s, op).nodes == NodesAfter(c, s.nodes, op)
    ensures Integrity(c, NodesAfter(c, s.nodes, op))
  {
    hide Needed, NodeKey, DeliverAll, RegistrationNotices;
    if !op.Remove? {
      RegisteredIsThere(c, s.nodes, op.info, op.db);
      RegistrationKeepsIntegrity(c, s.nodes, op.info, op.db);
    }
  }

  /** In every run entries sit under their own keys and identifiers stay positive and distinct. */
  lemma {:induction false} RunKeepsIntegrity(c: Center, ops: seq<Op>)
    requires LegalRun(c, ops)
    ensures Integrity(c, Run(c, ops).nodes)
  {
    hide Integrity, Step, NodesAfter;
    if |ops| > 0 {
      RunKeepsIntegrity(c, ops[..|ops| - 1]);
      StepKeepsIntegrity(c, Run(c, ops[..|ops| - 1]), ops[|ops| - 1]);
    } else {
      EmptyIsFine(c);
    }
  }

  lemma EmptyIsFine(c: Center)
    ensures Integrity(c, map[]) && Current(c, System(map[], map[]))
    ensures Complete(c, System(map[], map[])) && Exact(c, System(map[], map[]))
  {
  }

  /** What an operation must not do to keep knowledge exact: remove a needed node without
      announcing it, or register a node that comes back with stale knowledge. */
  ghost predicate Sound(c: Center, s: System, op: Op) {
    if op.Remove? then
      || op.db.statusRow
      || op.key !in s.nodes
      || PeerOf(s.nodes[op.key]) == c.self.peer
      || forall a | a in s.nodes && a != op.key :: !Needs(c, s.nodes[a].nodeType, s.nodes[op.key].nodeType)
    else
      (op.Report? && Updates(c, s.nodes, op.info)) || NothingStale(c, s, op.info, op.db, op.restarted)
  }

  lemma StepKeepsExactIff(c: Center, s: System, op: Op)
    requires Integrity(c, s.nodes) && Exact(c, s) && Legal(c, s.nodes, op)
    ensures Exact(c, Step(c, s, op)) <==> Sound(c, s, op)
  {
    hide Integrity, Exact, NothingStale;
    if op.Remove? {
      RemovalKeepsExactIff(c, s, op.key, op.db, op.order);
    } else if op.Report? && Updates(c, s.nodes, op.info) {
      UpdateKeepsExact(c, s, op.info);
    } else {
      RegistrationKeepsExactIff(c, s, op.info, op.db, op.order, op.restarted);
    }
  }

  lemma StepKeepsComplete(c: Center, s: System, op: Op)
    requires Integrity(c, s.nodes) && Complete(c, s) && Legal(c, s.nodes, op)
    ensures Complete(c, Step(c, s, op))
  {
    hide Integrity, Complete;
    if op.Remove? {
      RemovalKeepsComplete(c, s, op.key, op.db, op.order);
    } else if op.Report? && Updates(c, s.nodes, op.info) {
      UpdateKeepsExact(c, s, op.info);
    } else {
      RegistrationKeepsComplete(c, s, op.info, op.db, op.order, op.restarted);
    }
  }

  /** Completeness of the protocol: in every run, whichever statements fail and whatever nodes
      forget or remember, each live node has been told of every live node whose type it needs. */
  lemma {:induction false} EveryNodeIsToldWhatItNeeds(c: Center, ops: seq<Op>)
    requires LegalRun(c, ops)
    ensures Complete(c, Run(c, ops))
  {
    hide Integrity, Complete, Step;
    if |ops| > 0 {
      var before := ops[..|ops| - 1];
      EveryNodeIsToldWhatItNeeds(c, before);
      RunKeepsIntegrity(c, before);
      StepKeepsComplete(c, Run(c, before), ops[|ops| - 1]);
    } else {
      EmptyIsFine(c);
    }
  }

  /** Every removal could mark the node offline, and no node that had gone registers again
      without having restarted. */
  ghost predicate Orderly(c: Center, ops: seq<Op>)
    requires LegalRun(c, ops)
  {
    |ops| > 0 ==>
      var before, op := ops[..|ops| - 1], ops[|ops| - 1];
      && Orderly(c, before)
      && (op.Remove? ==> op.db.statusRow)
      && (!op.Remove? ==> op.restarted || NodeKey(op.info) !in Run(c, before).know
                          || NodeKey(op.info) in Run(c, before).nodes)
  }

  /** Exactness of the protocol: in every orderly run, whatever else fails, each live node
      believes in exactly the live nodes whose type it needs. */
  lemma {:induction false} EveryNodeKnowsWhatItNeeds(c: Center, ops: seq<Op>)
    requires LegalRun(c, ops) && Orderly(c, ops)
    ensures Exact(c, Run(c, ops))
  {
    hide Integrity, Exact, Step, NothingStale, NodeKey;
    if |ops| > 0 {
      var before, op := ops[..|ops| - 1], ops[|ops| - 1];
      EveryNodeKnowsWhatItNeeds(c, before);
      RunKeepsIntegrity(c, before);
      if !op.Remove? {
        NothingStaleUsually(c, Run(c, before), op.info, op.db, op.restarted);
      }
      StepKeepsExactIff(c, Run(c, before), op);
    } else {
      EmptyIsFine(c);
    }
  }

  // ----- worker counts -----

  lemma LearnedIsCurrent(c: Center, s: System, t: System, key: string, kept: Knowledge, a: string, p: Peer)
    requires Current(c, s) && key in t.nodes && a in t.nodes && NodeKey(t.nodes[key]) == key && p != c.self.peer
    requires t.nodes.Keys == s.nodes.Keys + {key} && forall b | b in s.nodes && b != key :: t.nodes[b] == s.nodes[b]
    requires Learned(c, s, t.nodes, key, kept, t.know, a, p) && p in t.know[a] && Wanted(c, t.nodes, a, p)
    requires a in s.nodes ==>
               Wanted(c, s.nodes, a, p) || (p == PeerOf(t.nodes[key]) && Needs(c, t.nodes[a].nodeType, p.nodeType))
    ensures t.know[a][p] == t.nodes[KeyOf(p.ip, p.port)].workerNum
  {
    hide KeyOf, Needs;
    if a != key && p == PeerOf(t.nodes[key]) && Needs(c, t.nodes[a].nodeType, p.nodeType) {
      assert KeyOf(p.ip, p.port) == key;
    }
  }

  lemma RegistrationKeepsCurrent(c: Center, s: System, info: NodeInfo, db: Database, order: seq<string>,
                                 restarted: bool)
    requires Integrity(c, s.nodes) && Complete(c, s) && Current(c, s)
    requires Orders(order, RegisterNodes(c, s.nodes, info, db))
    ensures Current(c, SystemRegister(c, s, info, db, order, restarted))
  {
    RegisteredIsThere(c, s.nodes, info, db);
    if RegisterCode(c, s.nodes, info, db) == Ok {
      var t, key, kept := SystemRegister(c, s, info, db, order, restarted), NodeKey(info),
                          Remembered(s, NodeKey(info), restarted);
      RegistrationKeepsIntegrity(c, s.nodes, info, db);
      RegistrationTeaches(c, s, info, db, order, restarted);
      RegistrationArrives(c, s.nodes, info, db);
      assert NodeKey(t.nodes[key]) == key;
      hide RegisterCode, RegisterNodes, Needs, KeyOf, NodeKey, SystemRegister, Complete, Learned, Wanted, Integrity,
           Remembered;
      forall a, p | a in t.nodes && p != c.self.peer && p in t.know[a] && Wanted(c, t.nodes, a, p)
        ensures t.know[a][p] == t.nodes[KeyOf(p.ip, p.port)].workerNum
      {
        assert Learned(c, s, t.nodes, key, kept, t.know, a, p);
        LearnedIsCurrent(c, s, t, key, kept, a, p);
      }
    }
  }

  lemma RemovalKeepsCurrent(c: Center, s: System, key: string, db: Database, order: seq<string>)
    requires Integrity(c, s.nodes) && Complete(c, s) && Current(c, s) && Orders(order, s.nodes - {key})
    ensures Current(c, SystemRemove(c, s, key, db, order))
  {
    if key in s.nodes {
      RemovalTeaches(c, s, key, db, order);
      var t := SystemRemove(c, s, key, db, order);
      hide SystemRemove, Integrity, KeyOf, Needs;
      forall a, p | a in t.nodes && a in t.know && p != c.self.peer && p in t.know[a] && Wanted(c, t.nodes, a, p)
        ensures t.know[a][p] == t.nodes[KeyOf(p.ip, p.port)].workerNum
      {
        WantedAfterDeparture(c, s.nodes, key, a, p);
      }
    } else {
      assert s.nodes - {key} == s.nodes;
    }
  }

  /** A report is not announced, so the counts others were told stay the registry's if and
      only if the report brings no new count or nobody else was told of the node. */
  lemma ReportKeepsCurrentIff(c: Center, s: System, info: NodeInfo)
    requires Integrity(c, s.nodes) && Complete(c, s) && Current(c, s) && NodeKey(info) in s.nodes
    ensures var key := NodeKey(info);
            Current(c, System(s.nodes[key := Update(s.nodes[key], info)], s.know)) <==>
              || info.workerNum == s.nodes[key].workerNum
              || PeerOf(s.nodes[key]) == c.self.peer
              || forall a | a in s.nodes :: !Needs(c, s.nodes[a].nodeType, s.nodes[key].nodeType)
  {
    var key := NodeKey(info);
    var after := s.nodes[key := Update(s.nodes[key], info)];
    UpdateNeverFails(c, s.nodes, info);
    hide Needed, KeyOf, Update, Needs;
    var peer := PeerOf(s.nodes[key]);
    assert KeyOf(peer.ip, peer.port) == NodeKey(s.nodes[key]) == key;
    forall a, p | a in s.nodes ensures Wanted(c, after, a, p) <==> Wanted(c, s.nodes, a, p) {
    }
    forall a | a in s.nodes ensures Wanted(c, s.nodes, a, peer) <==> Needs(c, s.nodes[a].nodeType, peer.nodeType) {
    }
    if a :| a in s.nodes && Needs(c, s.nodes[a].nodeType, peer.nodeType) && peer != c.self.peer {
      assert Wanted(c, s.nodes, a, peer) && peer in s.know[a];
      assert s.know[a][peer] == s.nodes[key].workerNum && after[key].workerNum == info.workerNum;
      assert Wanted(c, after, a, peer);
    }
  }

  /** In every run without reports, the last worker count a node was told of a live node it
      needs is the registry's current one. */
  lemma {:induction false} CountsStayCurrent(c: Center, ops: seq<Op>)
    requires LegalRun(c, ops) && forall i | 0 <= i < |ops| :: !ops[i].Report?
    ensures Current(c, Run(c, ops))
  {
    hide Integrity, Complete, Current;
    if |ops| > 0 {
      var before, op := ops[..|ops| - 1], ops[|ops| - 1];
      CountsStayCurrent(c, before);
      RunKeepsIntegrity(c, before);
      EveryNodeIsToldWhatItNeeds(c, before);
      var s := Run(c, before);
      if op.Remove? {
        RemovalKeepsCurrent(c, s, op.key, op.db, op.order);
      } else {
        RegistrationKeepsCurrent(c, s, op.info, op.db, op.order, op.restarted);
      }
    } else {
      EmptyIsFine(c);
    }
  }
}
