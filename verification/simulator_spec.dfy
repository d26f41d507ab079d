/** The node side of the protocol as a value: the mesh simulator and its virtual nodes. */
module Sim {
  import opened Bytes
  import opened Clock
  import opened Wire

  const SECOND := 1_000_000_000
  const ENROLL_INTERVAL := 2 * SECOND

  datatype VirtualNode = VirtualNode(
    mac: Mac,
    adapterType: int,
    nodeID: byte,
    relays: seq<Mac>,
    heartbeat: int,
    enrolled: bool,
    rejected: bool,
    offline: bool,
    silent: bool,
    publicKey: Key,
    uptime: nat,
    ackCount: nat,
    lastHeartbeat: Stamp,
    lastRoute: Stamp,
    lastEnroll: Stamp)

  type Table = map<Mac, VirtualNode>

  /** A frame that arrived, and the nodes as they were when it did. */
  datatype Arrival = Arrival(frame: MeshMessage, nodes: Table)

  /** `tx` holds the frames written to the link and not yet read by the hub; `log` records every arrival. */
  datatype State = State(nodes: Table, tx: seq<MeshMessage>, log: seq<Arrival>, startedAt: int, routeInterval: int)

  /** The node a target address names: its first six bytes; a shorter address names none. */
  function NodeAt(t: Table, addr: Bytes): Option<Mac> {
    if |addr| >= 6 && addr[..6] in t then Some(addr[..6]) else None
  }

  function SetNode(s: State, k: Mac, n: VirtualNode): State {
    s.(nodes := s.nodes[k := n])
  }

  function Emit(s: State, m: MeshMessage): State {
    s.(tx := s.tx + [m])
  }

  // ----- Frames from the hub -----

  function HandleJoinAck(s: State, m: MeshMessage): State {
    match NodeAt(s.nodes, m.target)
    case None => s
    case Some(k) =>
      var n := s.nodes[k];
      if |m.publicKey| == 32
      then SetNode(s, k, n.(enrolled := true, rejected := false, lastHeartbeat := Never, lastRoute := Never))
      else SetNode(s, k, n.(rejected := true))
  }

  function HandleSerialOp(s: State, m: MeshMessage): State
    requires m.data != []
  {
    if m.data[0] == OP_HEALTH_REQ then s.(nodes := map k | k in s.nodes :: s.nodes[k].(lastHeartbeat := Never))
    else if |m.data| < 8 then s
    else
      match NodeAt(s.nodes, m.data[1..7])
      case None => s
      case Some(k) =>
        if m.data[0] == OP_NODE_ID_SET then SetNode(s, k, s.nodes[k].(nodeID := m.data[7]))
        else if m.data[0] == OP_CONFIG_SET then SetNode(s, k, s.nodes[k].(adapterType := m.data[7]))
        else s
  }

  /** A node that acknowledges a command frame: enrolled, powered, and of the frame's adapter type. */
  predicate Accepts(n: VirtualNode, m: MeshMessage) {
    n.enrolled && !n.offline && n.adapterType == m.dataType
  }

  function AckOne(s: State, k: Mac, m: MeshMessage): State
    requires k in s.nodes && |m.data| >= MAX_DATA
  {
    var n := s.nodes[k];
    if Accepts(n, m) then Emit(SetNode(s, k, n.(ackCount := n.ackCount + 1)), AckMsg(n.mac, n.relays, PayloadToken(m.data)))
    else s
  }

  /** Every accepting node acknowledges, in the order map iteration gives. */
  function Acks(s: State, order: seq<Mac>, m: MeshMessage): (r: State)
    requires |m.data| >= MAX_DATA && forall k | k in order :: k in s.nodes
    ensures r.nodes.Keys == s.nodes.Keys
  {
    if order == [] then s
    else
      var init := order[..|order| - 1];
      assert forall k | k in init :: k in order;
      AckOne(Acks(s, init, m), order[|order| - 1], m)
  }

  /** HandleFrame. The simulator does not look at the protocol version. */
  function HandleFrame(s: State, m: MeshMessage, order: seq<Mac>): State
    requires forall k | k in order :: k in s.nodes
  {
    var s1 := s.(log := s.log + [Arrival(m, s.nodes)]);
    if m.messageType == MSG_JOIN_ACK then HandleJoinAck(s1, m)
    else if (m.messageType != MSG_ADAPTER_DATA && m.messageType != MSG_SERIAL_CMD_BROADCAST) || m.data == [] then s1
    else if m.dataType == TYPE_SERIAL then HandleSerialOp(s1, m)
    else if IsOutput(m.dataType) && |m.data| >= MAX_DATA then Acks(s1, order, m)
    else s1
  }

  // ----- Time -----

  function UptimeAt(s: State, now: int): nat {
    ((now - s.startedAt) / SECOND) % 0x1_0000_0000
  }

  /** First pass of a tick: an unenrolled node asks to join, an enrolled one reports its health. */
  function TickHealth(s: State, k: Mac, now: int): State
    requires k in s.nodes
  {
    var n := s.nodes[k];
    if n.offline then s
    else if !n.enrolled then
      if !n.rejected && Due(now, n.lastEnroll, ENROLL_INTERVAL)
      then Emit(SetNode(s, k, n.(lastEnroll := At(now))), EnrollmentMsg(n.mac, n.relays, n.publicKey))
      else s
    else if !n.silent && Due(now, n.lastHeartbeat, n.heartbeat) then
      var up := UptimeAt(s, now);
      Emit(SetNode(s, k, n.(lastHeartbeat := At(now), uptime := up)), HealthMsg(n.mac, n.relays, n.adapterType, up))
    else s
  }

  /** Second pass of a tick: enrolled nodes report their routes. */
  function TickRoute(s: State, k: Mac, now: int): State
    requires k in s.nodes
  {
    var n := s.nodes[k];
    if n.offline || !n.enrolled || n.silent || !Due(now, n.lastRoute, s.routeInterval) then s
    else Emit(SetNode(s, k, n.(lastRoute := At(now))), RouteReportMsg(n.mac, n.relays))
  }

  function TickHealths(s: State, order: seq<Mac>, now: int): (r: State)
    requires forall k | k in order :: k in s.nodes
    ensures r.nodes.Keys == s.nodes.Keys
  {
    if order == [] then s
    else
      var init := order[..|order| - 1];
      assert forall k | k in init :: k in order;
      TickHealth(TickHealths(s, init, now), order[|order| - 1], now)
  }

  function TickRoutes(s: State, order: seq<Mac>, now: int): (r: State)
    requires forall k | k in order :: k in s.nodes
    ensures r.nodes.Keys == s.nodes.Keys
  {
    if order == [] then s
    else
      var init := order[..|order| - 1];
      assert forall k | k in init :: k in order;
      TickRoute(TickRoutes(s, init, now), order[|order| - 1], now)
  }

  /** The two passes iterate over the map separately, so each has its own order. */
  function Tick(s: State, first: seq<Mac>, second: seq<Mac>, now: int): State
    requires forall k | k in first || k in second :: k in s.nodes
  {
    TickRoutes(TickHealths(s, first, now), second, now)
  }

  // ----- The control API -----

  predicate Spawnable(s: State, mac: Mac, adapterType: int) {
    mac !in s.nodes && (adapterType == TYPE_PIR || IsOutput(adapterType))
  }

  function NewNode(mac: Mac, adapterType: int, key: Key): VirtualNode {
    VirtualNode(mac, adapterType, 0, [], 3 * SECOND, false, false, false, false, key, 0, 0, Never, Never, Never)
  }

  /** An existing address or an unknown type is an error and changes nothing. */
  function Spawn(s: State, mac: Mac, adapterType: int, key: Key): State {
    if Spawnable(s, mac, adapterType) then SetNode(s, mac, NewNode(mac, adapterType, key)) else s
  }

  function FireMotion(s: State, mac: Mac): State {
    if mac !in s.nodes || !s.nodes[mac].enrolled || s.nodes[mac].offline then s
    else Emit(s, MotionMsg(s.nodes[mac].mac, s.nodes[mac].relays))
  }

  function SetOffline(s: State, mac: Mac, offline: bool): State {
    if mac !in s.nodes then s else SetNode(s, mac, s.nodes[mac].(offline := offline))
  }
}
