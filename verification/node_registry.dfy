/** The registry of mesh nodes: what each operation does to the table, logical IDs, and the class itself.
    The table is keyed by address bytes; MacText shows that keying by text is the same. */
module Nodes {
  import opened Bytes
  import opened Clock
  import opened MacText

  const REPLACED := "replaced"

  datatype NodeInfo = NodeInfo(
    mac: Bytes,
    adapterType: int,
    uptime: nat,
    lastSeen: Stamp,
    hopCount: nat,
    nodeID: byte,
    name: string,
    zone: string,
    status: string,
    replacedBy: string,
    routePath: seq<string>,
    parentID: Option<byte>)

  type Table = map<Bytes, NodeInfo>

  function NewNode(mac: Bytes): NodeInfo {
    NodeInfo(mac, 0, 0, Never, 0, 0, "", "", "", "", [], None)
  }

  function Entry(t: Table, mac: Bytes): NodeInfo {
    if mac in t then t[mac] else NewNode(mac)
  }

  /** Every entry is filed under its own address. */
  predicate Keyed(t: Table) {
    forall k | k in t :: t[k].mac == k
  }

  // ----- What each operation does to the table -----

  function Update(t: Table, mac: Bytes, adapterType: int, uptime: nat, hopCount: nat, now: int): Table {
    t[mac := Entry(t, mac).(adapterType := adapterType, uptime := uptime, lastSeen := At(now), hopCount := hopCount)]
  }

  /** An empty name becomes the address text. The status is left alone, even when it says "replaced". */
  function Assign(t: Table, mac: Bytes, nodeID: byte, name: string, zone: string): Table {
    t[mac := Entry(t, mac).(nodeID := nodeID, name := if name == "" then MacToString(mac) else name, zone := zone)]
  }

  function MarkReplaced(t: Table, mac: Bytes, successor: string): Table {
    if mac !in t then t else t[mac := t[mac].(status := REPLACED, replacedBy := successor, nodeID := 0)]
  }

  function ParentOf(t: Table, relays: seq<Mac>): Option<byte> {
    if relays != [] && relays[0] in t && t[relays[0]].nodeID > 0 then Some(t[relays[0]].nodeID) else None
  }

  function RouteText(relays: seq<Mac>): seq<string> {
    seq(|relays|, i requires 0 <= i < |relays| => MacToString(relays[i]))
  }

  /** The origin's entry exists before its parent is looked up, so a node may be its own first relay. */
  function UpdateRoute(t: Table, origin: Bytes, relays: seq<Mac>): Table {
    var t1 := t[origin := Entry(t, origin)];
    t1[origin := t1[origin].(routePath := RouteText(relays), parentID := ParentOf(t1, relays))]
  }

  // ----- Logical IDs -----

  predicate InUse(t: Table, id: int) {
    exists k :: k in t && t[k].nodeID == id
  }

  /** `mac` holds the logical ID `id`: this is what a lookup by ID looks for. */
  predicate Holds(t: Table, mac: Bytes, id: byte) {
    mac in t && t[mac].nodeID == id && t[mac].status != REPLACED
  }

  /** The answers the lookup may give: any holder, or nothing when there is none. */
  ghost predicate IsLookup(t: Table, id: byte, r: Option<Bytes>) {
    match r
    case Some(k) => Holds(t, k, id)
    case None => forall k :: !Holds(t, k, id)
  }

  /** The lookup by ID. Map iteration may meet any holder first; `hint` is that choice. */
  ghost function GetNodeByID(t: Table, id: byte, hint: Bytes): (r: Option<Bytes>)
    ensures IsLookup(t, id, r)
  {
    if Holds(t, hint, id) then Some(hint)
    else if exists k :: Holds(t, k, id) then (var k :| Holds(t, k, id); Some(k))
    else None
  }

  function LowestFree(t: Table, from: nat): (r: byte)
    requires 1 <= from <= 256
    ensures r == 0 <==> forall id :: from <= id <= 255 ==> InUse(t, id)
    ensures r != 0 ==> from <= r && !InUse(t, r) && forall id :: from <= id < r ==> InUse(t, id)
    decreases 256 - from
  {
    if from > 255 then 0 else if InUse(t, from) then LowestFree(t, from + 1) else from
  }

  /** The least ID of 1..255 that no entry holds, or 0 when every one is held. */
  function NextFree(t: Table): byte {
    LowestFree(t, 1)
  }

  lemma {:induction false} UsedIDsNeedEntries(t: Table, n: nat)
    requires forall id :: 1 <= id <= n ==> InUse(t, id)
    ensures |t| >= n
  {
    if n > 0 {
      assert InUse(t, n);
      var k :| k in t && t[k].nodeID == n;
      var rest := t - {k};
      forall id | 1 <= id <= n - 1 ensures InUse(rest, id) {
        assert InUse(t, id);
        var j :| j in t && t[j].nodeID == id;
        assert j in rest && rest[j].nodeID == id;
      }
      UsedIDsNeedEntries(rest, n - 1);
      assert t.Keys == rest.Keys + {k};
      assert |t.Keys| == |rest.Keys| + 1;
    }
  }

  /** A registry with fewer than 255 entries always has a free ID. */
  lemma FreeIDExists(t: Table)
    requires |t| < 255
    ensures NextFree(t) != 0
  {
    if NextFree(t) == 0 {
      UsedIDsNeedEntries(t, 255);
    }
  }

  /** No two entries that are not replaced share a nonzero ID. */
  ghost predicate UniqueIDs(t: Table) {
    forall id: byte, j, k :: id > 0 && Holds(t, j, id) && Holds(t, k, id) ==> j == k
  }

  /** The IDs are unique exactly when no lookup of a nonzero ID depends on map order. */
  lemma LookupIgnoresOrder(t: Table)
    ensures UniqueIDs(t) <==>
      forall id: byte, r, s :: id > 0 && IsLookup(t, id, r) && IsLookup(t, id, s) ==> r == s
  {
    if !UniqueIDs(t) {
      var id: byte, j, k :| id > 0 && Holds(t, j, id) && Holds(t, k, id) && j != k;
      assert IsLookup(t, id, Some(j)) && IsLookup(t, id, Some(k));
    }
  }

  // ----- The class -----

  class NodeRegistry {
    var nodes: Table

    ghost predicate Valid()
      reads this
    {
      Keyed(nodes)
    }

    constructor ()
      ensures Valid() && nodes == map[]
    {
      nodes := map[];
    }

    method UpdateNode(mac: Bytes, adapterType: int, uptime: nat, hopCount: nat, now: int)
      requires Valid()
      modifies this
      ensures Valid() && nodes == Update(old(nodes), mac, adapterType, uptime, hopCount, now)
    {
      if mac !in nodes {
        nodes := nodes[mac := NewNode(mac)];
      }
      nodes := nodes[mac := nodes[mac].(adapterType := adapterType, uptime := uptime)];
      nodes := nodes[mac := nodes[mac].(lastSeen := At(now), hopCount := hopCount)];
    }

    method AssignNode(mac: Bytes, nodeID: byte, name: string, zone: string)
      requires Valid()
      modifies this
      ensures Valid() && nodes == Assign(old(nodes), mac, nodeID, name, zone)
    {
      var stored := name;
      if stored == "" {
        stored := MacToString(mac);
      }
      if mac !in nodes {
        nodes := nodes[mac := NewNode(mac)];
      }
      nodes := nodes[mac := nodes[mac].(nodeID := nodeID, name := stored, zone := zone)];
    }

    method NextFreeNodeID() returns (r: byte)
      ensures r == NextFree(nodes)
    {
      var used: set<int> := {};
      var todo := nodes.Keys;
      while todo != {}
        invariant todo <= nodes.Keys
        invariant forall id :: id in used <==> id > 0 && exists k :: k in nodes && k !in todo && nodes[k].nodeID == id
        decreases todo
      {
        var k :| k in todo;
        if nodes[k].nodeID > 0 {
          used := used + {nodes[k].nodeID};
        }
        todo := todo - {k};
      }
      for id := 1 to 256
        invariant LowestFree(nodes, 1) == LowestFree(nodes, id)
      {
        if id !in used {
          return id;
        }
      }
      return 0;
    }

    method GetNode(mac: Bytes) returns (r: Option<NodeInfo>)
      ensures r == if mac in nodes then Some(nodes[mac]) else None
    {
      if mac !in nodes {
        return None;
      }
      return Some(nodes[mac]);
    }

    /** Scans in any order and stops at the first holder. */
    method GetNodeByID(id: byte) returns (r: Option<NodeInfo>)
      requires Valid()
      ensures IsLookup(nodes, id, if r.Some? then Some(r.value.mac) else None)
      ensures r.Some? ==> r.value == nodes[r.value.mac]
    {
      var todo := nodes.Keys;
      while todo != {}
        invariant todo <= nodes.Keys
        invariant forall k :: k in nodes && k !in todo ==> !Holds(nodes, k, id)
        decreases todo
      {
        var k :| k in todo;
        if nodes[k].nodeID == id && nodes[k].status != REPLACED {
          return Some(nodes[k]);
        }
        todo := todo - {k};
      }
      return None;
    }

    method RemoveNode(mac: Bytes) returns (existed: bool)
      requires Valid()
      modifies this
      ensures Valid() && nodes == old(nodes) - {mac} && existed == (mac in old(nodes))
    {
      existed := mac in nodes;
      if existed {
        nodes := nodes - {mac};
      }
    }

    method UpdateNodeRoute(origin: Bytes, relays: seq<Mac>)
      requires Valid()
      modifies this
      ensures Valid() && nodes == UpdateRoute(old(nodes), origin, relays)
    {
      if origin !in nodes {
        nodes := nodes[origin := NewNode(origin)];
      }
      var path := [];
      for i := 0 to |relays|
        invariant nodes == old(nodes)[origin := Entry(old(nodes), origin)]
        invariant path == RouteText(relays)[..i]
      {
        path := path + [MacToString(relays[i])];
      }
      assert path == RouteText(relays);
      var parent := None;
      if |relays| > 0 {
        if relays[0] in nodes && nodes[relays[0]].nodeID > 0 {
          parent := Some(nodes[relays[0]].nodeID);
        }
      }
      nodes := nodes[origin := nodes[origin].(routePath := path, parentID := parent)];
    }

    method MarkNodeReplaced(mac: Bytes, successor: string)
      requires Valid()
      modifies this
      ensures Valid() && nodes == MarkReplaced(old(nodes), mac, successor)
    {
      if mac in nodes {
        nodes := nodes[mac := nodes[mac].(status := REPLACED, replacedBy := successor, nodeID := 0)];
      }
    }
  }
}
