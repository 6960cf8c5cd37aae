/** What the registry says of each node, told from the operations alone: who registered,
    what it reported last, how it is numbered, and what a notice may name. */
module RegistryEntries {
  import opened Options
  import opened Text
  import opened Registry
  import opened RegistryProofs

  // ----- the type table -----

  predicate Listed(types: seq<NodeType>, name: string) {
    exists i :: 0 <= i < |types| && types[i].name == name
  }

  /** The first row of the name counts, further ones are ignored. */
  lemma {:induction false} NeededIsFirstRow(types: seq<NodeType>, name: string)
    ensures Needed(types, name).Some? <==> Listed(types, name)
    ensures Needed(types, name).Some? ==>
              exists i :: 0 <= i < |types| && types[i].name == name && types[i].needed == Needed(types, name).value
                          && forall j | 0 <= j < i :: types[j].name != name
  {
    if |types| > 0 {
      NeededIsFirstRow(types[1..], name);
      if types[0].name != name {
        assert forall j | 1 <= j < |types| :: types[j] == types[1..][j - 1];
        if Needed(types, name).Some? {
          var i :| 0 <= i < |types[1..]| && types[1..][i].name == name
                   && types[1..][i].needed == Needed(types, name).value
                   && forall j | 0 <= j < i :: types[1..][j].name != name;
          assert types[i + 1].name == name && forall j | 0 <= j < i + 1 :: types[j].name != name;
        }
      }
    }
  }

  // ----- one operation -----

  /** Equal but for the identifier. */
  predicate SameButId(a: NodeInfo, b: NodeInfo) {
    a.(nodeId := b.nodeId) == b
  }

  /** `entry` is that of the node as `founder` registered it and with what `last` reported. */
  predicate Shows(entry: NodeInfo, founder: NodeInfo, last: NodeInfo) {
    && entry.nodeType == founder.nodeType
    && entry.nodeIp == founder.nodeIp && entry.nodePort == founder.nodePort
    && entry.accessIp == founder.accessIp && entry.accessPort == founder.accessPort
    && entry.workerNum == last.workerNum && entry.load == last.load
  }

  /** A first registration stores what was reported, under a fresh identifier one above the
      highest; it happens exactly if the type is listed and both database steps succeed. */
  lemma FreshRegistrationStores(c: Center, nodes: Nodes, info: NodeInfo, db: Database)
    requires NodeKey(info) !in nodes
    ensures var after, key := RegisterNodes(c, nodes, info, db), NodeKey(info);
            if Listed(c.types, info.nodeType) && db.serverData && db.statusRow then
              && key in after && after == nodes[key := after[key]]
              && SameButId(after[key], info)
              && (forall k | k in nodes :: nodes[k].nodeId < after[key].nodeId)
              && (after[key].nodeId == 1 || exists k :: k in nodes && nodes[k].nodeId == after[key].nodeId - 1)
            else after == nodes
  {
    NeededIsFirstRow(c.types, info.nodeType);
    hide Needed, NodeKey;
    assert IsTopId(nodes, TopId(nodes));
  }

  /** Why a registration is refused. */
  lemma RefusalCodes(c: Center, nodes: Nodes, info: NodeInfo, db: Database)
    ensures var code := RegisterCode(c, nodes, info, db);
            && (code == Ok <==> Listed(c.types, info.nodeType)
                                && (NodeKey(info) in nodes || (db.serverData && db.statusRow)))
            && (code == ServerInfoRecord <==> Listed(c.types, info.nodeType) && NodeKey(info) !in nodes
                                              && db.serverData && !db.statusRow)
  {
    NeededIsFirstRow(c.types, info.nodeType);
  }

  /** What an operation does to the entry under `key`. */
  lemma EntryAfter(c: Center, nodes: Nodes, op: Op, key: string)
    requires Integrity(c, nodes)
    ensures var after := NodesAfter(c, nodes, op);
            if op.Remove? then
              && (key in after <==> key in nodes && key != op.key)
              && (key in after ==> after[key] == nodes[key])
            else if NodeKey(op.info) != key || !Listed(c.types, op.info.nodeType) then
              (key in after <==> key in nodes) && (key in after ==> after[key] == nodes[key])
            else if key in nodes then
              && key in after && after[key].nodeId == nodes[key].nodeId
              && Shows(after[key], nodes[key], op.info)
            else
              && (key in after <==> op.db.serverData && op.db.statusRow)
              && (key in after ==> Shows(after[key], op.info, op.info))
  {
    if !op.Remove? {
      NeededIsFirstRow(c.types, op.info.nodeType);
      if NodeKey(op.info) in nodes {
        UpdateNeverFails(c, nodes, op.info);
      }
      hide Needed, NodeKey;
    }
  }

  // ----- runs -----

  /** The report by which the node under `key`, if it is live, registered since it last left. */
  function Founder(c: Center, ops: seq<Op>, key: string): Option<NodeInfo> {
    if |ops| == 0 then None
    else
      var before, op := Founder(c, ops[..|ops| - 1], key), ops[|ops| - 1];
      if op.Remove? then if op.key == key then None else before
      else if before.None? && NodeKey(op.info) == key && Listed(c.types, op.info.nodeType)
              && op.db.serverData && op.db.statusRow then Some(op.info)
      else before
  }

  /** The last registration or report of the node under `key`, if it is live. */
  function Last(c: Center, ops: seq<Op>, key: string): Option<NodeInfo> {
    if |ops| == 0 || Founder(c, ops, key).None? then None
    else
      var op := ops[|ops| - 1];
      if !op.Remove? && NodeKey(op.info) == key && Listed(c.types, op.info.nodeType) then Some(op.info)
      else Last(c, ops[..|ops| - 1], key)
  }

  ghost predicate EntryShows(c: Center, nodes: Nodes, ops: seq<Op>, key: string) {
    && (key in nodes <==> Founder(c, ops, key).Some?)
    && (key in nodes <==> Last(c, ops, key).Some?)
    && (key in nodes ==> Shows(nodes[key], Founder(c, ops, key).value, Last(c, ops, key).value))
  }

  lemma EntryStep(c: Center, nodes: Nodes, ops: seq<Op>, key: string)
    requires |ops| > 0 && Integrity(c, nodes) && EntryShows(c, nodes, ops[..|ops| - 1], key)
    ensures EntryShows(c, NodesAfter(c, nodes, ops[|ops| - 1]), ops, key)
  {
    EntryAfter(c, nodes, ops[|ops| - 1], key);
    hide NodesAfter, Integrity, NodeKey, Listed;
  }

  /** In every run the live nodes are those that registered since they last left, and the entry
      of each has the type and addresses it registered with and the load and worker count it
      registered or reported last. */
  lemma {:induction false} EntriesShowReports(c: Center, ops: seq<Op>, key: string)
    requires LegalRun(c, ops)
    ensures EntryShows(c, Run(c, ops).nodes, ops, key)
  {
    if |ops| > 0 {
      var before := ops[..|ops| - 1];
      EntriesShowReports(c, before, key);
      RunKeepsIntegrity(c, before);
      StepKeepsIntegrity(c, Run(c, before), ops[|ops| - 1]);
      EntryStep(c, Run(c, before).nodes, ops, key);
      hide EntryShows, Step, NodesAfter, Integrity;
    }
  }

  // ----- what notices say -----

  /** A needed type is listed or announced as often as it occurs. */
  lemma {:induction false} CopiesCount<T>(needed: seq<string>, name: string, item: T)
    ensures |Copies(needed, name, item)| == multiset(needed)[name]
  {
    if |needed| > 0 {
      CopiesCount(needed[..|needed| - 1], name, item);
      assert needed == needed[..|needed| - 1] + [needed[|needed| - 1]];
    }
  }

  /** The notice is to the live node `k`, which needs the type of the newcomer. */
  ghost predicate Announces(c: Center, nodes: Nodes, n: Notice, entry: Entry, exit: bool) {
    exists k :: k in nodes && Needs(c, nodes[k].nodeType, entry.peer.nodeType)
                && n == if exit then Exited(k, entry) else Registered(k, [entry])
  }

  lemma {:induction false} BroadcastAnnounces(c: Center, order: seq<string>, nodes: Nodes, entry: Entry, exit: bool)
    requires Integrity(c, nodes) && forall k | k in order :: k in nodes
    ensures forall n | n in Broadcast(c.types, order, nodes, entry, exit) :: Announces(c, nodes, n, entry, exit)
  {
    hide Needed, NodeKey, Copies;
    if |order| > 0 {
      var info := nodes[order[|order| - 1]];
      var notice := if exit then Exited(NodeKey(info), entry) else Registered(NodeKey(info), [entry]);
      BroadcastAnnounces(c, order[..|order| - 1], nodes, entry, exit);
      forall n | n in ToNode(c.types, info, entry.peer.nodeType, notice) ensures Announces(c, nodes, n, entry, exit) {
        CopiesAre(Needed(c.types, info.nodeType).value, entry.peer.nodeType, notice, n);
      }
    }
  }

  /** Of the notices a registration sends, the first is the newcomer's and names only nodes of
      the types it needs and, last, the center; each other one goes to a live node that needs
      the newcomer's type and names the newcomer alone. */
  lemma NoticesNameOnlyNeeded(c: Center, order: seq<string>, nodes: Nodes, key: string)
    requires Integrity(c, nodes) && Orders(order, nodes) && key in nodes
    ensures var notices, newcomer := RegistrationNotices(c, order, nodes, nodes[key]), nodes[key];
            && |notices| > 0 && notices[0].Registered? && notices[0].to == key
            && var listed := notices[0].entries;
            && |listed| > 0 && listed[|listed| - 1] == c.self
            && (forall e | e in listed[..|listed| - 1] :: Needs(c, newcomer.nodeType, e.peer.nodeType))
            && (forall n | n in notices[1..] :: Announces(c, nodes, n, EntryOf(newcomer), false))
  {
    hide NodeKey, NeededEntries, Needed;
    var needed := Needed(c.types, nodes[key].nodeType).value;
    var listed := NeededEntries(order, nodes, needed) + [c.self];
    assert listed[..|listed| - 1] == NeededEntries(order, nodes, needed);
    forall e | e in NeededEntries(order, nodes, needed) ensures Needs(c, nodes[key].nodeType, e.peer.nodeType) {
      NeededEntriesAre(order, nodes, needed, e);
    }
    BroadcastAnnounces(c, order, nodes, EntryOf(nodes[key]), false);
    var own := Registered(NodeKey(nodes[key]), listed);
    assert ([own] + Broadcast(c.types, order, nodes, EntryOf(nodes[key]), false))[1..]
        == Broadcast(c.types, order, nodes, EntryOf(nodes[key]), false);
  }
}
