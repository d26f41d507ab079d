/** The whole protocol as a step system: the hub, the simulated nodes, the two FIFO links between them, and time.
    Each API call, frame delivery, tick, spawn and offline check is one step. */
module Protocol {
  import opened Bytes
  import opened Wire
  import Hub
  import Sim

  /** `hub.tx` and `sim.tx` are the links. `lastCheck` is the time of the last offline check. */
  datatype System = System(hub: Hub.State, sim: Sim.State, now: int, lastCheck: int)

  datatype Action =
    | AdminApprove(mac: Mac, params: Hub.ApprovalParams, hint: Bytes)
    | AdminReject(mac: Mac)
    | UpdateNode(nodeID: byte, name: Option<string>, zone: Option<string>, typeName: Option<string>, hint: Bytes)
    | DeleteNode(nodeID: byte, hint: Bytes)
    | NodeCommand(nodeID: byte, command: string, colour: Bytes, id: Uuid, hint: Bytes)
    | ZoneCommand(zoneName: string, command: string, colour: Bytes, entries: seq<Bytes>)
    | Configure(target: Bytes, adapterType: int)
    | RequestHealth
    | CheckOffline(entries: seq<Bytes>)
    | DeliverUp(hints: Hub.Hints)
    | DeliverDown(order: seq<Mac>)
    | Tick(first: seq<Mac>, second: seq<Mac>)
    | Spawn(mac: Mac, adapterType: int, key: Key)
    | FireMotion(mac: Mac)
    | SetOffline(mac: Mac, offline: bool)
    | Wait(d: nat)

  /** Path IDs are 1 to 255, a drawn UUID is new, and loops visit every key once. */
  ghost predicate HubEnabled(h: Hub.State, a: Action) {
    match a
    case UpdateNode(id, _, _, _, _) => id > 0
    case DeleteNode(id, _) => id > 0
    case NodeCommand(nodeID, _, _, id, _) => nodeID > 0 && id !in h.commands
    case ZoneCommand(_, _, _, entries) => Hub.IsOrder(entries, h.nodes.Keys)
    case CheckOffline(entries) => Hub.IsOrder(entries, h.nodes.Keys)
    case _ => true
  }

  /** A delivery needs a frame. */
  ghost predicate Enabled(s: System, a: Action) {
    match a
    case DeliverUp(_) => s.sim.tx != []
    case DeliverDown(order) => s.hub.tx != [] && Hub.IsOrder(order, s.sim.nodes.Keys)
    case Tick(first, second) => Hub.IsOrder(first, s.sim.nodes.Keys) && Hub.IsOrder(second, s.sim.nodes.Keys)
    case _ => HubEnabled(s.hub, a)
  }

  /** The steps taken by the hub on its own. */
  ghost function HubStep(h: Hub.State, a: Action, now: int): Hub.State
    requires a.ZoneCommand? || a.CheckOffline? ==> Hub.IsOrder(a.entries, h.nodes.Keys)
  {
    match a
    case AdminApprove(mac, params, hint) => Hub.ApproveByAdmin(h, mac, params, hint, now)
    case AdminReject(mac) => Hub.RejectByAdmin(h, mac)
    case UpdateNode(id, name, zone, typeName, hint) => Hub.UpdateNode(h, id, name, zone, typeName, hint)
    case DeleteNode(id, hint) => Hub.DeleteNode(h, id, hint)
    case NodeCommand(nodeID, command, colour, id, hint) => Hub.NodeCommand(h, nodeID, command, colour, id, hint, now)
    case ZoneCommand(zone, command, colour, entries) => Hub.ZoneCommand(h, zone, command, colour, entries)
    case Configure(target, adapterType) => Hub.Configure(h, target, adapterType)
    case RequestHealth => Hub.RequestHealth(h)
    case CheckOffline(entries) => Hub.CheckOffline(h, entries, now)
    case _ => h
  }

  /** The steps taken by the simulator on its own. */
  ghost function SimStep(t: Sim.State, a: Action, now: int): Sim.State
    requires a.Tick? ==> Hub.IsOrder(a.first, t.nodes.Keys) && Hub.IsOrder(a.second, t.nodes.Keys)
  {
    match a
    case Tick(first, second) => Sim.Tick(t, first, second, now)
    case Spawn(mac, adapterType, key) => Sim.Spawn(t, mac, adapterType, key)
    case FireMotion(mac) => Sim.FireMotion(t, mac)
    case SetOffline(mac, offline) => Sim.SetOffline(t, mac, offline)
    case _ => t
  }

  /** A delivery takes the oldest frame off its link and hands it to the other side. */
  ghost function Apply(s: System, a: Action): System
    requires Enabled(s, a)
  {
    match a
    case DeliverUp(hints) =>
      s.(sim := s.sim.(tx := s.sim.tx[1..]), hub := Hub.HandleMessage(s.hub, s.sim.tx[0], hints, s.now))
    case DeliverDown(order) =>
      s.(hub := s.hub.(tx := s.hub.tx[1..]), sim := Sim.HandleFrame(s.sim, s.hub.tx[0], order))
    case Wait(d) => s.(now := s.now + d)
    case CheckOffline(_) => s.(hub := HubStep(s.hub, a, s.now), lastCheck := s.now)
    case _ => s.(hub := HubStep(s.hub, a, s.now), sim := SimStep(s.sim, a, s.now))
  }

  /** Empty registries, empty links, and any seed nodes, some of them enrolled from the start. */
  ghost predicate Start(s: System) {
    && s.hub == Hub.Init(s.hub.cfg)
    && s.sim.tx == [] && s.sim.log == []
    && (forall k | k in s.sim.nodes :: s.sim.nodes[k].mac == k)
    && s.lastCheck == s.now
  }

  ghost predicate IsStep(states: seq<System>, actions: seq<Action>, i: nat)
    requires i < |actions| < |states|
  {
    Enabled(states[i], actions[i]) && states[i + 1] == Apply(states[i], actions[i])
  }

  ghost predicate IsRun(states: seq<System>, actions: seq<Action>) {
    && |states| == |actions| + 1
    && forall i :: 0 <= i < |actions| ==> IsStep(states, actions, i)
  }

  lemma ExtendRun(states: seq<System>, actions: seq<Action>, a: Action)
    requires IsRun(states, actions) && Enabled(states[|actions|], a)
    ensures IsRun(states + [Apply(states[|actions|], a)], actions + [a])
  {
    var r, b := states + [Apply(states[|actions|], a)], actions + [a];
    forall i | 0 <= i < |b| ensures IsStep(r, b, i) {
      if i < |actions| {
        assert IsStep(states, actions, i);
      }
    }
  }

  /** A run from the start. */
  ghost predicate IsHistory(states: seq<System>, actions: seq<Action>) {
    IsRun(states, actions) && Start(states[0])
  }
}
