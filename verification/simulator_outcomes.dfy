/** What the simulator does, said outright: which frames a tick and a frame from the hub make it write, and every field of
    every node afterwards. */
module SimOutcomes {
  import opened Bytes
  import opened Clock
  import opened Wire
  import opened Orders
  import opened SimEffects
  import Hub
  import Sim

  /** The frames of these nodes, in this order. */
  function FramesOf(who: seq<Mac>, frames: map<Mac, MeshMessage>): (q: seq<MeshMessage>)
    requires forall k | k in who :: k in frames
    ensures |q| == |who| && forall i :: 0 <= i < |who| ==> q[i] == frames[who[i]]
  {
    seq(|who|, i requires 0 <= i < |who| => frames[who[i]])
  }

  /** After a pass over the nodes in `order`: each is as `after` says, the others as before, and the frames of `who` are
      written in that order. */
  ghost predicate PassDone(s: Sim.State, r: Sim.State, order: seq<Mac>, after: Sim.Table, who: set<Mac>,
                           frames: map<Mac, MeshMessage>)
    requires after.Keys == frames.Keys == s.nodes.Keys && who <= s.nodes.Keys
  {
    ChosenMembers(order, who);
    && r == s.(nodes := r.nodes, tx := s.tx + FramesOf(Chosen(order, who), frames))
    && r.nodes.Keys == s.nodes.Keys
    && forall k | k in s.nodes :: r.nodes[k] == if k in order then after[k] else s.nodes[k]
  }

  lemma FramesAppend(who: seq<Mac>, k: Mac, frames: map<Mac, MeshMessage>)
    requires (forall j | j in who :: j in frames) && k in frames
    ensures FramesOf(who + [k], frames) == FramesOf(who, frames) + [frames[k]]
  {
  }

  lemma FramesSnoc(order: seq<Mac>, who: set<Mac>, frames: map<Mac, MeshMessage>)
    requires order != [] && who <= frames.Keys
    ensures (forall k | k in Chosen(order, who) || k in Chosen(order[..|order| - 1], who) :: k in frames)
    ensures var last := order[|order| - 1];
      FramesOf(Chosen(order, who), frames)
        == FramesOf(Chosen(order[..|order| - 1], who), frames) + (if last in who then [frames[last]] else [])
  {
    ChosenMembers(order, who);
    ChosenMembers(order[..|order| - 1], who);
    if order[|order| - 1] in who {
      FramesAppend(Chosen(order[..|order| - 1], who), order[|order| - 1], frames);
    } else {
      assert Chosen(order, who) == Chosen(order[..|order| - 1], who);
    }
  }

  lemma PassNodes(t: Sim.Table, q: Sim.Table, r: Sim.Table, order: seq<Mac>, after: Sim.Table)
    requires order != [] && Distinct(order) && order[|order| - 1] in t && after.Keys == q.Keys == t.Keys
    requires forall k | k in t :: q[k] == if k in order[..|order| - 1] then after[k] else t[k]
    requires r == q[order[|order| - 1] := after[order[|order| - 1]]]
    ensures r.Keys == t.Keys && forall k | k in t :: r[k] == if k in order then after[k] else t[k]
  {
    var init, last := order[..|order| - 1], order[|order| - 1];
    assert forall k | k in order :: k in init || k == last;
    assert forall k | k in init :: k in order;
  }

  lemma PassTurn(s: Sim.State, q: Sim.State, r: Sim.State, order: seq<Mac>, after: Sim.Table, who: set<Mac>,
                 frames: map<Mac, MeshMessage>)
    requires after.Keys == frames.Keys == s.nodes.Keys && who <= s.nodes.Keys
    requires order != [] && Distinct(order) && PassDone(s, q, order[..|order| - 1], after, who, frames)
    requires var k := order[|order| - 1];
      k in s.nodes && r == q.(nodes := q.nodes[k := after[k]], tx := q.tx + (if k in who then [frames[k]] else []))
    ensures PassDone(s, r, order, after, who, frames)
  {
    PassNodes(s.nodes, q.nodes, r.nodes, order, after);
    FramesSnoc(order, who, frames);
  }

  // ----- What a tick makes due -----

  /** Powered, not enrolled, not rejected, and two seconds or more since it last asked. */
  predicate AsksNow(n: Sim.VirtualNode, now: int) {
    !n.offline && !n.enrolled && !n.rejected && (n.lastEnroll.Never? || now - n.lastEnroll.t >= 2_000_000_000)
  }

  predicate Reports(n: Sim.VirtualNode) {
    !n.offline && n.enrolled && !n.silent
  }

  predicate BeatsNow(n: Sim.VirtualNode, now: int) {
    Reports(n) && (n.lastHeartbeat.Never? || now - n.lastHeartbeat.t >= n.heartbeat)
  }

  predicate RoutesNow(n: Sim.VirtualNode, interval: int, now: int) {
    Reports(n) && (n.lastRoute.Never? || now - n.lastRoute.t >= interval)
  }

  /** Whole seconds since the start, in 32 bits. */
  function Uptime(startedAt: int, now: int): nat {
    ((now - startedAt) / 1_000_000_000) % 0x1_0000_0000
  }

  function Callers(t: Sim.Table, now: int): set<Mac> {
    set k | k in t && (AsksNow(t[k], now) || BeatsNow(t[k], now))
  }

  function Routers(t: Sim.Table, interval: int, now: int): set<Mac> {
    set k | k in t && RoutesNow(t[k], interval, now)
  }

  /** The frame of the first kind a node sends: its request while it is not enrolled, its health once it is. */
  function CallFrame(n: Sim.VirtualNode, up: nat): MeshMessage {
    if n.enrolled then HealthMsg(n.mac, n.relays, n.adapterType, up) else EnrollmentMsg(n.mac, n.relays, n.publicKey)
  }

  function AfterCall(n: Sim.VirtualNode, up: nat, now: int): Sim.VirtualNode {
    n.(lastEnroll := if AsksNow(n, now) then At(now) else n.lastEnroll,
       lastHeartbeat := if BeatsNow(n, now) then At(now) else n.lastHeartbeat,
       uptime := if BeatsNow(n, now) then up else n.uptime)
  }

  function AfterRoute(n: Sim.VirtualNode, interval: int, now: int): Sim.VirtualNode {
    n.(lastRoute := if RoutesNow(n, interval, now) then At(now) else n.lastRoute)
  }

  lemma CallTurn(s: Sim.State, k: Mac, now: int)
    requires k in s.nodes
    ensures var r := Sim.TickHealth(s, k, now);
      var n, up := s.nodes[k], Uptime(s.startedAt, now);
      && r == s.(nodes := s.nodes[k := AfterCall(n, up, now)],
                 tx := s.tx + (if AsksNow(n, now) || BeatsNow(n, now) then [CallFrame(n, up)] else []))
  {
    assert s.nodes[k := s.nodes[k]] == s.nodes;
  }

  lemma RouteTurnExact(s: Sim.State, k: Mac, now: int)
    requires k in s.nodes
    ensures var r := Sim.TickRoute(s, k, now);
      var n := s.nodes[k];
      && r == s.(nodes := s.nodes[k := AfterRoute(n, s.routeInterval, now)],
                 tx := s.tx + (if RoutesNow(n, s.routeInterval, now) then [RouteReportMsg(n.mac, n.relays)] else []))
  {
    assert s.nodes[k := s.nodes[k]] == s.nodes;
  }

  function CallsAfter(t: Sim.Table, up: nat, now: int): Sim.Table {
    map k | k in t :: AfterCall(t[k], up, now)
  }

  function CallFrames(t: Sim.Table, up: nat): map<Mac, MeshMessage> {
    map k | k in t :: CallFrame(t[k], up)
  }

  lemma {:induction false} FirstPass(s: Sim.State, order: seq<Mac>, now: int)
    requires (forall k | k in order :: k in s.nodes) && Distinct(order)
    ensures var up := Uptime(s.startedAt, now);
      PassDone(s, Sim.TickHealths(s, order, now), order, CallsAfter(s.nodes, up, now), Callers(s.nodes, now),
               CallFrames(s.nodes, up))
  {
    if order != [] {
      var init, last, up := order[..|order| - 1], order[|order| - 1], Uptime(s.startedAt, now);
      assert forall k | k in init :: k in order;
      FirstPass(s, init, now);
      LastIsNew(order);
      var q := Sim.TickHealths(s, init, now);
      CallTurn(q, last, now);
      PassTurn(s, q, Sim.TickHealth(q, last, now), order, CallsAfter(s.nodes, up, now), Callers(s.nodes, now),
               CallFrames(s.nodes, up));
    }
  }

  function RoutesAfter(t: Sim.Table, interval: int, now: int): Sim.Table {
    map k | k in t :: AfterRoute(t[k], interval, now)
  }

  function RouteFrames(t: Sim.Table): map<Mac, MeshMessage> {
    map k | k in t :: RouteReportMsg(t[k].mac, t[k].relays)
  }

  lemma {:induction false} SecondPass(s: Sim.State, order: seq<Mac>, now: int)
    requires (forall k | k in order :: k in s.nodes) && Distinct(order)
    ensures PassDone(s, Sim.TickRoutes(s, order, now), order, RoutesAfter(s.nodes, s.routeInterval, now),
                     Routers(s.nodes, s.routeInterval, now), RouteFrames(s.nodes))
  {
    if order != [] {
      var init, last := order[..|order| - 1], order[|order| - 1];
      assert forall k | k in init :: k in order;
      SecondPass(s, init, now);
      LastIsNew(order);
      var q := Sim.TickRoutes(s, init, now);
      RouteTurnExact(q, last, now);
      PassTurn(s, q, Sim.TickRoute(q, last, now), order, RoutesAfter(s.nodes, s.routeInterval, now),
               Routers(s.nodes, s.routeInterval, now), RouteFrames(s.nodes));
    }
  }

  lemma CallsKeepRoutes(t: Sim.Table, u: Sim.Table, up: nat, interval: int, now: int)
    requires t.Keys == u.Keys && forall k | k in t :: u[k] == AfterCall(t[k], up, now)
    ensures Routers(u, interval, now) == Routers(t, interval, now) && RouteFrames(u) == RouteFrames(t)
  {
  }

  lemma BothPasses(s: Sim.State, first: seq<Mac>, second: seq<Mac>, now: int)
    requires Hub.IsOrder(first, s.nodes.Keys) && Hub.IsOrder(second, s.nodes.Keys)
    ensures var q := Sim.TickHealths(s, first, now);
      var r, up, interval := Sim.Tick(s, first, second, now), Uptime(s.startedAt, now), s.routeInterval;
      && PassDone(s, q, first, CallsAfter(s.nodes, up, now), Callers(s.nodes, now), CallFrames(s.nodes, up))
      && PassDone(q, r, second, RoutesAfter(q.nodes, interval, now), Routers(q.nodes, interval, now), RouteFrames(q.nodes))
      && Routers(q.nodes, interval, now) == Routers(s.nodes, interval, now) && RouteFrames(q.nodes) == RouteFrames(s.nodes)
  {
    FirstPass(s, first, now);
    var q := Sim.TickHealths(s, first, now);
    CallsKeepRoutes(s.nodes, q.nodes, Uptime(s.startedAt, now), s.routeInterval, now);
    SecondPass(q, second, now);
  }

  /** A tick, whatever the two orders: first one request from every node that is to ask now and one health report from every
      node whose heartbeat is due, then one route report from every node whose route is due, each exactly once and nothing
      else; and the stamps, and uptime, of exactly those nodes are set. */
  lemma TickSendsWhatIsDue(s: Sim.State, first: seq<Mac>, second: seq<Mac>, now: int)
    returns (callers: seq<Mac>, routers: seq<Mac>)
    requires Hub.IsOrder(first, s.nodes.Keys) && Hub.IsOrder(second, s.nodes.Keys)
    ensures Hub.IsOrder(callers, set k | k in s.nodes && (AsksNow(s.nodes[k], now) || BeatsNow(s.nodes[k], now)))
    ensures Hub.IsOrder(routers, set k | k in s.nodes && RoutesNow(s.nodes[k], s.routeInterval, now))
    ensures var r, up := Sim.Tick(s, first, second, now), Uptime(s.startedAt, now);
      && r.tx == s.tx + FramesOf(callers, map k | k in s.nodes :: CallFrame(s.nodes[k], up))
               + FramesOf(routers, map k | k in s.nodes :: RouteReportMsg(s.nodes[k].mac, s.nodes[k].relays))
      && r.nodes.Keys == s.nodes.Keys && r.log == s.log
      && forall k | k in s.nodes :: r.nodes[k] == AfterRoute(AfterCall(s.nodes[k], up, now), s.routeInterval, now)
  {
    callers := Chosen(first, Callers(s.nodes, now));
    routers := Chosen(second, Routers(s.nodes, s.routeInterval, now));
    ChosenIsOrder(first, s.nodes.Keys, Callers(s.nodes, now));
    ChosenIsOrder(second, s.nodes.Keys, Routers(s.nodes, s.routeInterval, now));
    BothPasses(s, first, second, now);
  }

  lemma FrameIsThere(before: seq<MeshMessage>, who: seq<Mac>, frames: map<Mac, MeshMessage>, rest: seq<MeshMessage>, k: Mac)
    requires (forall j | j in who :: j in frames) && k in who
    ensures var q := before + FramesOf(who, frames) + rest;
      exists i :: |before| <= i < |q| && q[i] == frames[k]
  {
    var j :| 0 <= j < |who| && who[j] == k;
    var q := before + FramesOf(who, frames) + rest;
    assert q[|before| + j] == frames[k];
  }

  lemma WhoeverIsDueAsks(s: Sim.State, k: Mac, first: seq<Mac>, second: seq<Mac>, now: int)
    requires k in s.nodes && AsksNow(s.nodes[k], now)
    requires Hub.IsOrder(first, s.nodes.Keys) && Hub.IsOrder(second, s.nodes.Keys)
    ensures var r, n := Sim.Tick(s, first, second, now), s.nodes[k];
      exists i :: |s.tx| <= i < |r.tx| && r.tx[i] == EnrollmentMsg(n.mac, n.relays, n.publicKey)
  {
    var callers, routers := TickSendsWhatIsDue(s, first, second, now);
    assert k in callers;
    FrameIsThere(s.tx, callers, CallFrames(s.nodes, Uptime(s.startedAt, now)), FramesOf(routers, RouteFrames(s.nodes)), k);
  }

  /** A node just spawned is new, not enrolled and without an ID, and asks to join with its key at the next tick. A known
      address and an unknown type are refused, and change nothing. */
  lemma SpawnedAsksAtOnce(s: Sim.State, mac: Mac, adapterType: int, key: Key, first: seq<Mac>, second: seq<Mac>, now: int)
    requires Hub.IsOrder(first, s.nodes.Keys + {mac}) && Hub.IsOrder(second, s.nodes.Keys + {mac})
    ensures mac in s.nodes || adapterType !in {TYPE_PIR, TYPE_LED, TYPE_RELAY} ==> Sim.Spawn(s, mac, adapterType, key) == s
    ensures mac !in s.nodes && adapterType in {TYPE_PIR, TYPE_LED, TYPE_RELAY} ==>
      var q := Sim.Spawn(s, mac, adapterType, key);
      && q.nodes.Keys == s.nodes.Keys + {mac} && q.tx == s.tx
      && (forall k :: k in s.nodes ==> q.nodes[k] == s.nodes[k])
      && !q.nodes[mac].enrolled && q.nodes[mac].adapterType == adapterType && q.nodes[mac].nodeID == 0
      && var r := Sim.Tick(q, first, second, now);
         exists i :: |s.tx| <= i < |r.tx| && r.tx[i] == EnrollmentMsg(mac, [], key)
  {
    if mac !in s.nodes && adapterType in {TYPE_PIR, TYPE_LED, TYPE_RELAY} {
      WhoeverIsDueAsks(Sim.Spawn(s, mac, adapterType, key), mac, first, second, now);
    }
  }

  // ----- A frame from the hub -----

  predicate Rejects(m: MeshMessage, mac: Bytes) {
    m.messageType == MSG_JOIN_ACK && |m.publicKey| != 32 && |m.target| >= 6 && m.target[..6] == mac
  }

  predicate AsksForHealth(m: MeshMessage) {
    && (m.messageType == MSG_ADAPTER_DATA || m.messageType == MSG_SERIAL_CMD_BROADCAST)
    && m.dataType == TYPE_SERIAL && m.data != [] && m.data[0] == OP_HEALTH_REQ
  }

  predicate Acknowledges(n: Sim.VirtualNode, m: MeshMessage) {
    IsCommandFrame(m) && n.enrolled && !n.offline && n.adapterType == m.dataType
  }

  /** Every field of a node after a frame. */
  function AfterFrame(n: Sim.VirtualNode, m: MeshMessage, k: Mac): Sim.VirtualNode {
    n.(nodeID := if SetsIDOf(m, k) then m.data[7] else n.nodeID,
       adapterType := if SetsTypeOf(m, k) then m.data[7] else n.adapterType,
       enrolled := n.enrolled || Enrolls(m, k),
       rejected := if Enrolls(m, k) then false else n.rejected || Rejects(m, k),
       lastHeartbeat := if Enrolls(m, k) || AsksForHealth(m) then Never else n.lastHeartbeat,
       lastRoute := if Enrolls(m, k) then Never else n.lastRoute,
       ackCount := n.ackCount + if Acknowledges(n, m) then 1 else 0)
  }

  function AckFrames(t: Sim.Table, token: Token): map<Mac, MeshMessage> {
    map k | k in t :: AckMsg(t[k].mac, t[k].relays, token)
  }

  function Counted(n: Sim.VirtualNode, m: MeshMessage): Sim.VirtualNode {
    n.(ackCount := n.ackCount + if Acknowledges(n, m) then 1 else 0)
  }

  function AcksAfter(t: Sim.Table, m: MeshMessage): Sim.Table {
    map k | k in t :: Counted(t[k], m)
  }

  function Ackers(t: Sim.Table, m: MeshMessage): set<Mac> {
    set k | k in t && Acknowledges(t[k], m)
  }

  lemma AckTurn(s: Sim.State, k: Mac, m: MeshMessage)
    requires k in s.nodes && IsCommandFrame(m)
    ensures var r := Sim.AckOne(s, k, m);
      var n := s.nodes[k];
      && r == s.(nodes := s.nodes[k := Counted(n, m)],
                 tx := s.tx + (if Acknowledges(n, m) then [AckMsg(n.mac, n.relays, PayloadToken(m.data))] else []))
  {
    assert s.nodes[k := s.nodes[k]] == s.nodes;
  }

  lemma {:induction false} AcksExactly(s: Sim.State, order: seq<Mac>, m: MeshMessage)
    requires (forall k | k in order :: k in s.nodes) && Distinct(order) && IsCommandFrame(m)
    ensures PassDone(s, Sim.Acks(s, order, m), order, AcksAfter(s.nodes, m), Ackers(s.nodes, m),
                     AckFrames(s.nodes, PayloadToken(m.data)))
  {
    if order != [] {
      var init, last := order[..|order| - 1], order[|order| - 1];
      assert forall k | k in init :: k in order;
      AcksExactly(s, init, m);
      LastIsNew(order);
      var q := Sim.Acks(s, init, m);
      AckTurn(q, last, m);
      PassTurn(s, q, Sim.AckOne(q, last, m), order, AcksAfter(s.nodes, m), Ackers(s.nodes, m),
               AckFrames(s.nodes, PayloadToken(m.data)));
    }
  }

  lemma JoinAckExactly(s: Sim.State, m: MeshMessage)
    requires m.messageType == MSG_JOIN_ACK
    ensures var r := Sim.HandleJoinAck(s, m);
      r == s.(nodes := r.nodes) && r.nodes.Keys == s.nodes.Keys
        && forall k | k in s.nodes :: r.nodes[k] == AfterFrame(s.nodes[k], m, k)
  {
  }

  lemma SerialExactly(s: Sim.State, m: MeshMessage)
    requires (m.messageType == MSG_ADAPTER_DATA || m.messageType == MSG_SERIAL_CMD_BROADCAST)
    requires m.dataType == TYPE_SERIAL && m.data != []
    ensures var r := Sim.HandleSerialOp(s, m);
      r == s.(nodes := r.nodes) && r.nodes.Keys == s.nodes.Keys
        && forall k | k in s.nodes :: r.nodes[k] == AfterFrame(s.nodes[k], m, k)
  {
    if |m.data| >= 8 {
      assert m.data[1..7][..6] == m.data[1..7];
    }
  }

  lemma CommandOnNode(n: Sim.VirtualNode, m: MeshMessage, k: Mac)
    requires IsCommandFrame(m)
    ensures AfterFrame(n, m, k) == Counted(n, m)
  {
  }

  /** Frames of any other kind change no node. */
  lemma InertOnNode(n: Sim.VirtualNode, m: MeshMessage, k: Mac)
    requires m.messageType != MSG_JOIN_ACK && !IsCommandFrame(m)
    requires m.messageType == MSG_ADAPTER_DATA || m.messageType == MSG_SERIAL_CMD_BROADCAST ==>
      m.data == [] || m.dataType != TYPE_SERIAL
    ensures AfterFrame(n, m, k) == n
  {
  }

  /** A frame from the hub, whatever the order of the nodes: each node changes exactly as the frame addresses it, and the
      frames written back are one acknowledgement, with the frame's token, from each node that carries the command out. */
  lemma FrameExactly(s: Sim.State, m: MeshMessage, order: seq<Mac>) returns (who: seq<Mac>)
    requires Hub.IsOrder(order, s.nodes.Keys)
    ensures Hub.IsOrder(who, set k | k in s.nodes && Acknowledges(s.nodes[k], m))
    ensures var r := Sim.HandleFrame(s, m, order);
      && r.nodes.Keys == s.nodes.Keys && (forall k | k in s.nodes :: r.nodes[k] == AfterFrame(s.nodes[k], m, k))
      && (!IsCommandFrame(m) ==> r.tx == s.tx)
      && (IsCommandFrame(m) ==>
            var acks := map k | k in s.nodes :: AckMsg(s.nodes[k].mac, s.nodes[k].relays, PayloadToken(m.data));
            r.tx == s.tx + FramesOf(who, acks))
  {
    var s1 := s.(log := s.log + [Sim.Arrival(m, s.nodes)]);
    who := if IsCommandFrame(m) then Chosen(order, Ackers(s.nodes, m)) else [];
    ChosenIsOrder(order, s.nodes.Keys, Ackers(s.nodes, m));
    if m.messageType == MSG_JOIN_ACK {
      JoinAckExactly(s1, m);
    } else if IsCommandFrame(m) {
      AcksExactly(s1, order, m);
      forall k | k in s.nodes ensures AfterFrame(s.nodes[k], m, k) == Counted(s.nodes[k], m) {
        CommandOnNode(s.nodes[k], m, k);
      }
    } else if (m.messageType == MSG_ADAPTER_DATA || m.messageType == MSG_SERIAL_CMD_BROADCAST)
              && m.data != [] && m.dataType == TYPE_SERIAL {
      SerialExactly(s1, m);
    } else {
      forall k | k in s.nodes ensures AfterFrame(s.nodes[k], m, k) == s.nodes[k] {
        InertOnNode(s.nodes[k], m, k);
      }
    }
  }

  // ----- The control API -----

  /** Switching a node's power changes that flag of that node alone; an unknown one changes nothing. */
  lemma PowerOutcome(s: Sim.State, mac: Mac, offline: bool)
    ensures var r := Sim.SetOffline(s, mac, offline);
      && r == s.(nodes := r.nodes) && r.nodes.Keys == s.nodes.Keys
      && (mac in s.nodes ==> r.nodes[mac] == s.nodes[mac].(offline := offline))
      && forall k | k in s.nodes && k != mac :: r.nodes[k] == s.nodes[k]
  {
  }

  /** A node without power asks for nothing, reports nothing and acknowledges nothing. */
  lemma OfflineIsSilent(n: Sim.VirtualNode, m: MeshMessage, interval: int, now: int)
    requires n.offline
    ensures !AsksNow(n, now) && !BeatsNow(n, now) && !RoutesNow(n, interval, now) && !Acknowledges(n, m)
  {
  }

  /** An enrolled, powered node sends one motion frame, from its own address and over its own relays; any other none. */
  lemma MotionFrameOutcome(s: Sim.State, mac: Mac)
    requires Keyed(s.nodes)
    ensures var r := Sim.FireMotion(s, mac);
      if mac in s.nodes && s.nodes[mac].enrolled && !s.nodes[mac].offline then
        && r == s.(tx := r.tx) && |r.tx| == |s.tx| + 1 && r.tx[..|s.tx|] == s.tx
        && var f := r.tx[|s.tx|];
           f.protoVersion == 5 && f.messageType == MSG_ADAPTER_DATA && f.dataType == TYPE_PIR && f.origin == mac
           && f.hopCount == |s.nodes[mac].relays| + 1
      else r == s
  {
  }
}
