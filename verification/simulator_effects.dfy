/** What the loops of the simulator can and cannot change, and which frames they write. */
module SimEffects {
  import opened Bytes
  import opened Wire
  import Clock
  import Hub
  import Sim

  /** The same nodes, with the same identity, enrollment, power state and logical ID. */
  ghost predicate SameNodes(t: Sim.Table, u: Sim.Table) {
    && t.Keys == u.Keys
    && forall k | k in t ::
      u[k].mac == t[k].mac && u[k].publicKey == t[k].publicKey && u[k].nodeID == t[k].nodeID
      && u[k].enrolled == t[k].enrolled && u[k].offline == t[k].offline && u[k].relays == t[k].relays
      && u[k].adapterType == t[k].adapterType
  }

  predicate IsAck(m: MeshMessage) {
    m.messageType == MSG_ADAPTER_DATA && m.dataType == TYPE_SERIAL && |m.data| >= 3 && m.data[0] == OP_COMMAND_ACK
  }

  /** A request to join that names one of the nodes and carries that node's key. */
  ghost predicate IsOwnRequest(t: Sim.Table, m: MeshMessage) {
    |m.origin| == 6 && m.origin in t && m.publicKey == t[m.origin].publicKey
  }

  /** What a tick may write: own requests to join, and frames that are neither requests nor acknowledgements. */
  ghost predicate IsTickFrame(t: Sim.Table, m: MeshMessage) {
    !IsAck(m) && (m.messageType == MSG_ENROLLMENT ==> IsOwnRequest(t, m))
  }

  ghost predicate TickEffect(s: Sim.State, r: Sim.State) {
    && SameNodes(s.nodes, r.nodes) && r.log == s.log
    && s.tx <= r.tx
    && forall i :: |s.tx| <= i < |r.tx| ==> IsTickFrame(s.nodes, r.tx[i])
  }

  ghost predicate Keyed(t: Sim.Table) {
    forall k | k in t :: t[k].mac == k
  }

  lemma TickHealthEffect(s: Sim.State, k: Mac, now: int)
    requires Keyed(s.nodes) && k in s.nodes
    ensures TickEffect(s, Sim.TickHealth(s, k, now))
  {
  }

  lemma TickRouteEffect(s: Sim.State, k: Mac, now: int)
    requires Keyed(s.nodes) && k in s.nodes
    ensures TickEffect(s, Sim.TickRoute(s, k, now))
  {
  }

  lemma TickEffectTrans(s: Sim.State, r: Sim.State, q: Sim.State)
    requires TickEffect(s, r) && TickEffect(r, q)
    ensures TickEffect(s, q)
  {
    forall i | |s.tx| <= i < |q.tx| ensures IsTickFrame(s.nodes, q.tx[i]) {
      if i < |r.tx| {
        assert q.tx[i] == r.tx[i];
      } else {
        assert IsTickFrame(r.nodes, q.tx[i]);
      }
    }
  }

  lemma {:induction false} TickHealthsEffect(s: Sim.State, order: seq<Mac>, now: int)
    requires Keyed(s.nodes) && forall k | k in order :: k in s.nodes
    ensures TickEffect(s, Sim.TickHealths(s, order, now))
  {
    if order != [] {
      var init := order[..|order| - 1];
      assert forall k | k in init :: k in order;
      TickHealthsEffect(s, init, now);
      var r := Sim.TickHealths(s, init, now);
      TickHealthEffect(r, order[|order| - 1], now);
      TickEffectTrans(s, r, Sim.TickHealths(s, order, now));
    }
  }

  lemma {:induction false} TickRoutesEffect(s: Sim.State, order: seq<Mac>, now: int)
    requires Keyed(s.nodes) && forall k | k in order :: k in s.nodes
    ensures TickEffect(s, Sim.TickRoutes(s, order, now))
  {
    if order != [] {
      var init := order[..|order| - 1];
      assert forall k | k in init :: k in order;
      TickRoutesEffect(s, init, now);
      var r := Sim.TickRoutes(s, init, now);
      TickRouteEffect(r, order[|order| - 1], now);
      TickEffectTrans(s, r, Sim.TickRoutes(s, order, now));
    }
  }

  lemma TicksEffect(s: Sim.State, first: seq<Mac>, second: seq<Mac>, now: int)
    requires Keyed(s.nodes) && forall k | k in first || k in second :: k in s.nodes
    ensures TickEffect(s, Sim.Tick(s, first, second, now))
  {
    TickHealthsEffect(s, first, now);
    var r := Sim.TickHealths(s, first, now);
    TickRoutesEffect(r, second, now);
    TickEffectTrans(s, r, Sim.TickRoutes(r, second, now));
  }

  /** The acknowledgement some accepting node of `t` writes for the command frame `m`. */
  ghost predicate IsAckFor(t: Sim.Table, m: MeshMessage, f: MeshMessage)
    requires |m.data| >= MAX_DATA
  {
    exists k :: k in t && Sim.Accepts(t[k], m) && f == AckMsg(t[k].mac, t[k].relays, PayloadToken(m.data))
  }

  /** The same nodes, but for how many commands each has acknowledged. */
  ghost predicate SameButCounters(t: Sim.Table, u: Sim.Table) {
    t.Keys == u.Keys && forall k | k in t :: u[k] == t[k].(ackCount := u[k].ackCount)
  }

  /** A command frame makes at most one acknowledgement a node, all from accepting nodes, and changes only counters. */
  lemma {:induction false} AcksEffect(s: Sim.State, order: seq<Mac>, m: MeshMessage)
    requires |m.data| >= MAX_DATA && forall k | k in order :: k in s.nodes
    ensures var r := Sim.Acks(s, order, m);
      && SameButCounters(s.nodes, r.nodes) && r.log == s.log
      && s.tx <= r.tx && |r.tx| <= |s.tx| + |order|
      && forall i :: |s.tx| <= i < |r.tx| ==> IsAckFor(s.nodes, m, r.tx[i])
  {
    if order != [] {
      var init, k := order[..|order| - 1], order[|order| - 1];
      assert forall k | k in init :: k in order;
      AcksEffect(s, init, m);
      var r := Sim.Acks(s, init, m);
      var q := Sim.Acks(s, order, m);
      assert q == Sim.AckOne(r, k, m);
      if Sim.Accepts(r.nodes[k], m) {
        assert Sim.Accepts(s.nodes[k], m);
        assert IsAckFor(s.nodes, m, AckMsg(s.nodes[k].mac, s.nodes[k].relays, PayloadToken(m.data)));
      }
    }
  }

  // ----- One frame from the hub -----

  /** The frame assigns the node at `mac` its logical ID, data[7]. */
  predicate SetsIDOf(m: MeshMessage, mac: Bytes) {
    && (m.messageType == MSG_ADAPTER_DATA || m.messageType == MSG_SERIAL_CMD_BROADCAST)
    && m.dataType == TYPE_SERIAL && |m.data| >= 8 && m.data[0] == OP_NODE_ID_SET && m.data[1..7] == mac
  }

  /** The frame is a JOIN_ACK with a key for the node at `mac`. */
  predicate Enrolls(m: MeshMessage, mac: Bytes) {
    m.messageType == MSG_JOIN_ACK && |m.publicKey| == 32 && |m.target| >= 6 && m.target[..6] == mac
  }

  /** The frame sets the adapter type of the node at `mac`, to data[7]. */
  predicate SetsTypeOf(m: MeshMessage, mac: Bytes) {
    && (m.messageType == MSG_ADAPTER_DATA || m.messageType == MSG_SERIAL_CMD_BROADCAST)
    && m.dataType == TYPE_SERIAL && |m.data| >= 8 && m.data[0] == OP_CONFIG_SET && m.data[1..7] == mac
  }

  predicate IsCommandFrame(m: MeshMessage) {
    && (m.messageType == MSG_ADAPTER_DATA || m.messageType == MSG_SERIAL_CMD_BROADCAST)
    && IsOutput(m.dataType) && |m.data| >= MAX_DATA
  }

  /** A frame changes a node's ID or type exactly when it sets that of that node, and enrolls it exactly when it is its
      accepting JOIN_ACK. */
  ghost predicate FrameOnNode(n: Sim.VirtualNode, m: MeshMessage, k: Mac, u: Sim.VirtualNode) {
    && u.mac == n.mac && u.publicKey == n.publicKey && u.offline == n.offline
    && u.nodeID == (if SetsIDOf(m, k) then m.data[7] else n.nodeID)
    && u.adapterType == (if SetsTypeOf(m, k) then m.data[7] else n.adapterType)
    && u.enrolled == (n.enrolled || Enrolls(m, k))
  }

  ghost predicate FrameOnNodes(t: Sim.Table, m: MeshMessage, u: Sim.Table) {
    u.Keys == t.Keys && forall k | k in t :: FrameOnNode(t[k], m, k, u[k])
  }

  lemma JoinAckOnNodes(s: Sim.State, m: MeshMessage)
    requires m.messageType == MSG_JOIN_ACK
    ensures FrameOnNodes(s.nodes, m, Sim.HandleJoinAck(s, m).nodes)
  {
  }

  lemma SerialOpOnNodes(s: Sim.State, m: MeshMessage)
    requires (m.messageType == MSG_ADAPTER_DATA || m.messageType == MSG_SERIAL_CMD_BROADCAST)
    requires m.dataType == TYPE_SERIAL && m.data != []
    ensures FrameOnNodes(s.nodes, m, Sim.HandleSerialOp(s, m).nodes)
  {
    if |m.data| >= 8 {
      assert m.data[1..7][..6] == m.data[1..7];
    }
  }

  lemma FrameEffect(s: Sim.State, m: MeshMessage, order: seq<Mac>)
    requires forall k | k in order :: k in s.nodes
    ensures var r := Sim.HandleFrame(s, m, order);
      && FrameOnNodes(s.nodes, m, r.nodes)
      && r.log == s.log + [Sim.Arrival(m, s.nodes)]
      && s.tx <= r.tx && |r.tx| <= |s.tx| + (if IsCommandFrame(m) then |order| else 0)
      && (r.tx != s.tx ==> IsCommandFrame(m) && forall i :: |s.tx| <= i < |r.tx| ==> IsAckFor(s.nodes, m, r.tx[i]))
  {
    var s1 := s.(log := s.log + [Sim.Arrival(m, s.nodes)]);
    if m.messageType == MSG_JOIN_ACK {
      JoinAckOnNodes(s1, m);
    } else if (m.messageType == MSG_ADAPTER_DATA || m.messageType == MSG_SERIAL_CMD_BROADCAST) && m.data != [] {
      if m.dataType == TYPE_SERIAL {
        SerialOpOnNodes(s1, m);
      } else if IsOutput(m.dataType) && |m.data| >= MAX_DATA {
        AcksEffect(s1, order, m);
      }
    }
  }

  // ----- Pacing -----

  /** The first pass has nothing to send for this node. */
  predicate HealthSettled(n: Sim.VirtualNode, now: int) {
    n.offline
    || (!n.enrolled && (n.rejected || !Clock.Due(now, n.lastEnroll, Sim.ENROLL_INTERVAL)))
    || (n.enrolled && (n.silent || !Clock.Due(now, n.lastHeartbeat, n.heartbeat)))
  }

  predicate RouteSettled(n: Sim.VirtualNode, interval: int, now: int) {
    n.offline || !n.enrolled || n.silent || !Clock.Due(now, n.lastRoute, interval)
  }

  ghost predicate PositiveHeartbeats(t: Sim.Table) {
    forall k | k in t :: t[k].heartbeat > 0
  }

  /** One node's turn in the first pass settles it, and nobody else notices. */
  lemma HealthTurn(s: Sim.State, k: Mac, now: int)
    requires k in s.nodes && s.nodes[k].heartbeat > 0
    ensures var r := Sim.TickHealth(s, k, now);
      && r.nodes.Keys == s.nodes.Keys && r.routeInterval == s.routeInterval
      && HealthSettled(r.nodes[k], now) && r.nodes[k].heartbeat == s.nodes[k].heartbeat
      && forall j | j in s.nodes && j != k :: r.nodes[j] == s.nodes[j]
  {
  }

  lemma RouteTurn(s: Sim.State, k: Mac, now: int)
    requires k in s.nodes && s.routeInterval > 0
    ensures var r := Sim.TickRoute(s, k, now);
      && r.nodes.Keys == s.nodes.Keys && r.routeInterval == s.routeInterval && r.startedAt == s.startedAt
      && RouteSettled(r.nodes[k], s.routeInterval, now)
      && forall j | j in s.nodes ::
        r.nodes[j] == s.nodes[j].(lastRoute := if j == k then r.nodes[j].lastRoute else s.nodes[j].lastRoute)
  {
  }

  lemma {:induction false} HealthsSettle(s: Sim.State, order: seq<Mac>, now: int)
    requires (forall k | k in order :: k in s.nodes) && PositiveHeartbeats(s.nodes)
    ensures var r := Sim.TickHealths(s, order, now);
      && PositiveHeartbeats(r.nodes) && r.routeInterval == s.routeInterval
      && (forall k | k in order :: HealthSettled(r.nodes[k], now))
      && forall k | k in s.nodes && k !in order :: r.nodes[k] == s.nodes[k]
  {
    if order != [] {
      var init, last := order[..|order| - 1], order[|order| - 1];
      assert forall k | k in init :: k in order;
      assert forall k | k in order :: k in init || k == last;
      HealthsSettle(s, init, now);
      var r := Sim.TickHealths(s, init, now);
      HealthTurn(r, last, now);
      assert Sim.TickHealths(s, order, now) == Sim.TickHealth(r, last, now);
    }
  }

  lemma {:induction false} RoutesSettle(s: Sim.State, order: seq<Mac>, now: int)
    requires (forall k | k in order :: k in s.nodes) && s.routeInterval > 0
    ensures var r := Sim.TickRoutes(s, order, now);
      && r.routeInterval == s.routeInterval && r.startedAt == s.startedAt
      && (forall k | k in order :: RouteSettled(r.nodes[k], s.routeInterval, now))
      && (forall k | k in s.nodes :: r.nodes[k] == s.nodes[k].(lastRoute := r.nodes[k].lastRoute))
  {
    if order != [] {
      var init, last := order[..|order| - 1], order[|order| - 1];
      assert forall k | k in init :: k in order;
      assert forall k | k in order :: k in init || k == last;
      RoutesSettle(s, init, now);
      var r := Sim.TickRoutes(s, init, now);
      RouteTurn(r, last, now);
      assert Sim.TickRoutes(s, order, now) == Sim.TickRoute(r, last, now);
    }
  }

  lemma {:induction false} SettledSendsNothing(s: Sim.State, first: seq<Mac>, second: seq<Mac>, now: int)
    requires forall k | k in first || k in second :: k in s.nodes
    requires forall k | k in s.nodes :: HealthSettled(s.nodes[k], now) && RouteSettled(s.nodes[k], s.routeInterval, now)
    ensures Sim.TickHealths(s, first, now) == s && Sim.TickRoutes(s, second, now) == s
    decreases |first| + |second|
  {
    if first != [] {
      var init := first[..|first| - 1];
      assert forall k | k in init :: k in first;
      SettledSendsNothing(s, init, second, now);
    }
    if second != [] {
      var init := second[..|second| - 1];
      assert forall k | k in init :: k in second;
      SettledSendsNothing(s, first, init, now);
    }
  }

  /** A tick sends everything that is due and no more than once: a second tick at the same instant changes nothing. */
  lemma TickIsPaced(s: Sim.State, o1: seq<Mac>, o2: seq<Mac>, o3: seq<Mac>, o4: seq<Mac>, now: int)
    requires PositiveHeartbeats(s.nodes) && s.routeInterval > 0
    requires Hub.IsOrder(o1, s.nodes.Keys) && Hub.IsOrder(o2, s.nodes.Keys)
    requires Hub.IsOrder(o3, s.nodes.Keys) && Hub.IsOrder(o4, s.nodes.Keys)
    ensures var r := Sim.Tick(s, o1, o2, now);
      Sim.Tick(r, o3, o4, now) == r
  {
    HealthsSettle(s, o1, now);
    RoutesSettle(Sim.TickHealths(s, o1, now), o2, now);
    SettledSendsNothing(Sim.Tick(s, o1, o2, now), o3, o4, now);
  }
}
