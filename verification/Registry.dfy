/** The center's registry of live nodes and the notices that registering, reporting and
    disconnecting send. Iteration over the registry takes place in some order of its keys,
    which the operations take as an input. */
module Registry {
  import opened Options
  import opened Text

  /** The part of a node's report that an update replaces, besides the worker count. */
  datatype Load = Load(activeTime: nat, load: int, connect: int, client: int, recvNum: int, recvByte: int,
                       sendNum: int, sendByte: int, worker: string)

  datatype NodeInfo = NodeInfo(nodeId: int, nodeType: string, nodeIp: CString, nodePort: int, accessIp: CString,
                               accessPort: int, workerNum: int, load: Load)

  type Nodes = map<string, NodeInfo>

  /** A row of the type table: the types whose nodes it wants to hear of. */
  datatype NodeType = NodeType(name: string, needed: seq<string>)

  /** How a notice names a node. */
  datatype Peer = Peer(nodeType: string, ip: CString, port: int)

  datatype Entry = Entry(peer: Peer, workerNum: int)

  /** `node_arry_reg` or `node_arry_exit`, sent to the node with the given key; the
      registering node is answered over the connection it registers on. */
  datatype Notice = Registered(to: string, entries: seq<Entry>) | Exited(to: string, entry: Entry)

  datatype Code = Ok | ServerInfo | ServerInfoRecord

  datatype Center = Center(types: seq<NodeType>, self: Entry)

  // ----- entries and keys -----

  function KeyOf(ip: CString, port: int): string {
    ip + ":" + Decimal(port)
  }

  function NodeKey(info: NodeInfo): string {
    KeyOf(info.nodeIp, info.nodePort)
  }

  function PeerOf(info: NodeInfo): Peer {
    Peer(info.nodeType, info.nodeIp, info.nodePort)
  }

  function EntryOf(info: NodeInfo): Entry {
    Entry(PeerOf(info), info.workerNum)
  }

  predicate SameAddress(a: NodeInfo, b: NodeInfo) {
    a.nodeIp == b.nodeIp && a.nodePort == b.nodePort
  }

  /** `st_NodeInfo::update`: only load and worker count, and only for the same address. */
  function Update(entry: NodeInfo, info: NodeInfo): NodeInfo {
    if SameAddress(entry, info) then entry.(workerNum := info.workerNum, load := info.load) else entry
  }

  /** The first row of the type table with the given name. */
  function Needed(types: seq<NodeType>, name: string): Option<seq<string>> {
    if |types| == 0 then None
    else if types[0].name == name then Some(types[0].needed)
    else Needed(types[1..], name)
  }

  // ----- identifiers -----

  /** `m` is 0 or the identifier of some node, and no identifier is above it. */
  ghost predicate IsTopId(nodes: Nodes, m: int) {
    && m >= 0
    && (m == 0 || exists k :: k in nodes && nodes[k].nodeId == m)
    && (forall k | k in nodes :: nodes[k].nodeId <= m)
  }

  lemma TopIdExists(nodes: Nodes)
    ensures exists m :: IsTopId(nodes, m)
    decreases nodes.Keys
  {
    if nodes == map[] {
      assert IsTopId(nodes, 0);
    } else {
      var k :| k in nodes;
      var rest := nodes - {k};
      assert rest.Keys == nodes.Keys - {k};
      TopIdExists(rest);
      var m :| IsTopId(rest, m);
      var top := if nodes[k].nodeId > m then nodes[k].nodeId else m;
      forall j | j in nodes ensures nodes[j].nodeId <= top {
        assert j == k || j in rest;
      }
      if nodes[k].nodeId > m {
        assert IsTopId(nodes, top);
      } else {
        if m != 0 {
          var j :| j in rest && rest[j].nodeId == m;
          assert j in nodes && nodes[j].nodeId == m;
        }
        assert IsTopId(nodes, m);
      }
    }
  }

  ghost function TopId(nodes: Nodes): (m: int)
    ensures IsTopId(nodes, m)
  {
    TopIdExists(nodes);
    var m :| IsTopId(nodes, m);
    m
  }

  // ----- notices -----

  /** How often a type occurs among the needed ones: that often it is listed or notified. */
  function Copies<T>(needed: seq<string>, name: string, item: T): seq<T> {
    if |needed| == 0 then []
    else Copies(needed[..|needed| - 1], name, item) + if needed[|needed| - 1] == name then [item] else []
  }

  /** `GetNeededRegisteredNodes`, before the center itself is appended. */
  function NeededEntries(order: seq<string>, nodes: Nodes, needed: seq<string>): seq<Entry>
    requires forall k | k in order :: k in nodes
  {
    if |order| == 0 then []
    else
      var info := nodes[order[|order| - 1]];
      NeededEntries(order[..|order| - 1], nodes, needed) + Copies(needed, info.nodeType, EntryOf(info))
  }

  /** What one registered node is told when a node of type `name` comes or goes. */
  function ToNode(types: seq<NodeType>, info: NodeInfo, name: string, notice: Notice): seq<Notice> {
    match Needed(types, info.nodeType)
    case None => []
    case Some(needed) => Copies(needed, name, notice)
  }

  function Broadcast(types: seq<NodeType>, order: seq<string>, nodes: Nodes, entry: Entry, exit: bool): seq<Notice>
    requires forall k | k in order :: k in nodes
  {
    if |order| == 0 then []
    else
      var info := nodes[order[|order| - 1]];
      var notice := if exit then Exited(NodeKey(info), entry) else Registered(NodeKey(info), [entry]);
      Broadcast(types, order[..|order| - 1], nodes, entry, exit) + ToNode(types, info, entry.peer.nodeType, notice)
  }

  lemma BroadcastStep(types: seq<NodeType>, order: seq<string>, i: nat, nodes: Nodes, entry: Entry, exit: bool)
    requires i < |order| && forall k | k in order :: k in nodes
    ensures var info := nodes[order[i]];
            var notice := if exit then Exited(NodeKey(info), entry) else Registered(NodeKey(info), [entry]);
            Broadcast(types, order[..i + 1], nodes, entry, exit)
            == Broadcast(types, order[..i], nodes, entry, exit) + ToNode(types, info, entry.peer.nodeType, notice)
  {
    hide ToNode;
    assert order[..i + 1][..i] == order[..i];
  }

  /** `SendNodeRegNotice`: the newcomer is told the nodes it needs and the center, then every
      node that needs the newcomer's type is told the newcomer. */
  function RegistrationNotices(c: Center, order: seq<string>, nodes: Nodes, newcomer: NodeInfo): seq<Notice>
    requires forall k | k in order :: k in nodes
  {
    (match Needed(c.types, newcomer.nodeType)
     case None => []
     case Some(needed) => [Registered(NodeKey(newcomer), NeededEntries(order, nodes, needed) + [c.self])])
    + Broadcast(c.types, order, nodes, EntryOf(newcomer), false)
  }

  // ----- operations -----

  /** The outcome of the database statements an operation runs, where it runs them:
      the server data and its verification, the status row, the offline mark. */
  datatype Database = Database(serverData: bool, statusRow: bool)

  /** `CmdNodeReg` and `regNode`: what the registry becomes, or why it is refused. */
  ghost function RegisterNodes(c: Center, nodes: Nodes, info: NodeInfo, db: Database): Nodes {
    var key := NodeKey(info);
    if Needed(c.types, info.nodeType).None? then nodes
    else if key in nodes then nodes[key := Update(nodes[key], info)]
    else if db.serverData && db.statusRow then nodes[key := info.(nodeId := TopId(nodes) + 1)]
    else nodes
  }

  function RegisterCode(c: Center, nodes: Nodes, info: NodeInfo, db: Database): Code {
    if Needed(c.types, info.nodeType).None? then ServerInfo
    else if NodeKey(info) in nodes then Ok
    else if !db.serverData then ServerInfo
    else if !db.statusRow then ServerInfoRecord
    else Ok
  }

  ghost predicate Orders(order: seq<string>, nodes: Nodes) {
    forall k :: k in order <==> k in nodes
  }

  /** A report of a registered node of a known type only updates its entry. */
  predicate Updates(c: Center, nodes: Nodes, info: NodeInfo) {
    Needed(c.types, info.nodeType).Some? && NodeKey(info) in nodes
  }

  /** What a removal sends: something only if the node was there and its offline mark was written. */
  ghost function RemovalNotices(c: Center, order: seq<string>, nodes: Nodes, key: string, db: Database): seq<Notice>
    requires Orders(order, nodes - {key})
  {
    if key in nodes && db.statusRow then Broadcast(c.types, order, nodes - {key}, EntryOf(nodes[key]), true) else []
  }

  /** The object behind the commands: session and registration manager in one. */
  class NodeSession {
    const center: Center
    var mapNodeInfo: Nodes
    /** Everything handed to `SendTo`, oldest first. */
    var sent: seq<Notice>

    constructor (center: Center)
      ensures this.center == center && mapNodeInfo == map[] && sent == []
    {
      this.center, mapNodeInfo, sent := center, map[], [];
    }

    method GetNewNodeID() returns (id: int)
      ensures id == TopId(mapNodeInfo) + 1
    {
      var tmpId := 0;
      var rest := mapNodeInfo.Keys;
      while rest != {}
        invariant rest <= mapNodeInfo.Keys && tmpId >= 0
        invariant tmpId == 0 || exists k :: k in mapNodeInfo && mapNodeInfo[k].nodeId == tmpId
        invariant forall k | k in mapNodeInfo && k !in rest :: mapNodeInfo[k].nodeId <= tmpId
      {
        var k :| k in rest;
        rest := rest - {k};
        if mapNodeInfo[k].nodeId > tmpId {
          tmpId := mapNodeInfo[k].nodeId;
        }
      }
      id := tmpId + 1;
    }

    method AddNodeInfo(key: string, info: NodeInfo)
      modifies this`mapNodeInfo
      ensures mapNodeInfo == if key in old(mapNodeInfo) then old(mapNodeInfo) else old(mapNodeInfo)[key := info]
    {
      if key !in mapNodeInfo {
        mapNodeInfo := mapNodeInfo[key := info];
      }
    }

    method DelNodeInfo(key: string) returns (ok: bool)
      modifies this`mapNodeInfo
      ensures mapNodeInfo == old(mapNodeInfo) - {key}
      ensures ok == (key in old(mapNodeInfo))
    {
      if key in mapNodeInfo {
        mapNodeInfo := mapNodeInfo - {key};
        return true;
      }
      assert mapNodeInfo - {key} == mapNodeInfo;
      return false;
    }

    /** An iteration order over the registry. */
    method Keys() returns (order: seq<string>)
      ensures Orders(order, mapNodeInfo)
    {
      order := [];
      var rest := mapNodeInfo.Keys;
      while rest != {}
        invariant rest <= mapNodeInfo.Keys
        invariant forall k :: k in order <==> k in mapNodeInfo && k !in rest
      {
        var k :| k in rest;
        rest, order := rest - {k}, order + [k];
      }
    }

    method GetNeededRegisteredNodes(order: seq<string>, needed: seq<string>) returns (entries: seq<Entry>)
      requires Orders(order, mapNodeInfo)
      ensures entries == NeededEntries(order, mapNodeInfo, needed) + [center.self]
    {
      entries := [];
      for i := 0 to |order|
        invariant entries == NeededEntries(order[..i], mapNodeInfo, needed)
      {
        var info := mapNodeInfo[order[i]];
        ghost var before := entries;
        for j := 0 to |needed|
          invariant entries == before + Copies(needed[..j], info.nodeType, EntryOf(info))
        {
          assert needed[..j + 1][..j] == needed[..j];
          if needed[j] == info.nodeType {
            entries := entries + [EntryOf(info)];
          }
        }
        assert needed[..|needed|] == needed;
        assert order[..i + 1][..i] == order[..i];
      }
      assert order[..|order|] == order;
      entries := entries + [center.self];
    }

    /** Sends `notice` once for every needed type equal to `name`. */
    method SendCopies(needed: seq<string>, name: string, notice: Notice)
      modifies this`sent
      ensures sent == old(sent) + Copies(needed, name, notice)
    {
      for j := 0 to |needed|
        invariant sent == old(sent) + Copies(needed[..j], name, notice)
      {
        assert needed[..j + 1][..j] == needed[..j];
        if needed[j] == name {
          sent := sent + [notice];
        }
      }
      assert needed[..|needed|] == needed;
    }

    /** Tells every registered node that needs the entry's type that it came or went. */
    method SendToNeeding(order: seq<string>, entry: Entry, exit: bool)
      requires Orders(order, mapNodeInfo)
      modifies this`sent
      ensures sent == old(sent) + Broadcast(center.types, order, mapNodeInfo, entry, exit)
    {
      hide Needed, NodeKey, Copies;
      for i := 0 to |order|
        invariant mapNodeInfo == old(mapNodeInfo)
        invariant sent == old(sent) + Broadcast(center.types, order[..i], mapNodeInfo, entry, exit)
      {
        BroadcastStep(center.types, order, i, mapNodeInfo, entry, exit);
        var info := mapNodeInfo[order[i]];
        var notice := if exit then Exited(NodeKey(info), entry) else Registered(NodeKey(info), [entry]);
        var needed := Needed(center.types, info.nodeType);
        if needed.Some? {
          SendCopies(needed.value, entry.peer.nodeType, notice);
        }
      }
      assert order[..|order|] == order;
    }

    method SendNodeRegNotice(newcomer: NodeInfo) returns (ghost order: seq<string>)
      modifies this`sent
      ensures Orders(order, mapNodeInfo)
      ensures sent == old(sent) + RegistrationNotices(center, order, mapNodeInfo, newcomer)
    {
      hide NeededEntries, Broadcast, Needed, NodeKey;
      var keys := Keys();
      order := keys;
      var needed := Needed(center.types, newcomer.nodeType);
      if needed.Some? {
        var entries := GetNeededRegisteredNodes(keys, needed.value);
        sent := sent + [Registered(NodeKey(newcomer), entries)];
      }
      SendToNeeding(keys, EntryOf(newcomer), false);
    }

    /** Registration, from the type check of the command to the last notice. */
    method RegNode(info: NodeInfo, db: Database) returns (code: Code, ghost order: seq<string>)
      modifies this
      ensures mapNodeInfo == RegisterNodes(center, old(mapNodeInfo), info, db)
      ensures code == RegisterCode(center, old(mapNodeInfo), info, db)
      ensures Orders(order, mapNodeInfo)
      ensures sent == old(sent) + if code == Ok
                                  then RegistrationNotices(center, order, mapNodeInfo, mapNodeInfo[NodeKey(info)])
                                  else []
    {
      order := Keys();
      if Needed(center.types, info.nodeType).None? {
        return ServerInfo, order;
      }
      var key := NodeKey(info);
      var registered: NodeInfo;
      if key in mapNodeInfo {
        registered := Update(mapNodeInfo[key], info);
        mapNodeInfo := mapNodeInfo[key := registered];
      } else {
        if !db.serverData {
          return ServerInfo, order;
        }
        var id := GetNewNodeID();
        registered := info.(nodeId := id);
        if !db.statusRow {
          return ServerInfoRecord, order;
        }
        AddNodeInfo(key, registered);
      }
      order := SendNodeRegNotice(registered);
      code := Ok;
    }

    /** A report of a registered node updates its entry and tells nobody; an unknown node registers. */
    method NodeReport(info: NodeInfo, db: Database) returns (code: Code, ghost order: seq<string>)
      modifies this
      ensures Updates(center, old(mapNodeInfo), info) ==>
                && mapNodeInfo == old(mapNodeInfo)[NodeKey(info) := Update(old(mapNodeInfo)[NodeKey(info)], info)]
                && code == (if db.statusRow then Ok else ServerInfoRecord)
                && sent == old(sent)
      ensures !Updates(center, old(mapNodeInfo), info) ==>
                && mapNodeInfo == RegisterNodes(center, old(mapNodeInfo), info, db)
                && code == RegisterCode(center, old(mapNodeInfo), info, db)
                && Orders(order, mapNodeInfo)
                && sent == old(sent) + if code == Ok
                                       then RegistrationNotices(center, order, mapNodeInfo, mapNodeInfo[NodeKey(info)])
                                       else []
    {
      var key := NodeKey(info);
      if Needed(center.types, info.nodeType).Some? && key in mapNodeInfo {
        mapNodeInfo := mapNodeInfo[key := Update(mapNodeInfo[key], info)];
        code := if db.statusRow then Ok else ServerInfoRecord;
        order := [];
      } else {
        code, order := RegNode(info, db);
      }
    }

    /** A lost connection: the others are told only if the offline mark could be written. */
    method DelNode(key: string, db: Database) returns (ok: bool, ghost order: seq<string>)
      modifies this
      ensures mapNodeInfo == old(mapNodeInfo) - {key}
      ensures ok == (key in old(mapNodeInfo) && db.statusRow)
      ensures Orders(order, mapNodeInfo)
      ensures sent == old(sent) + RemovalNotices(center, order, old(mapNodeInfo), key, db)
    {
      if key !in mapNodeInfo {
        assert mapNodeInfo - {key} == mapNodeInfo;
        order := Keys();
        return false, order;
      }
      var info := mapNodeInfo[key];
      var _ := DelNodeInfo(key);
      var keys := Keys();
      order := keys;
      if !db.statusRow {
        return false, order;
      }
      SendToNeeding(keys, EntryOf(info), true);
      ok := true;
    }
  }
}
