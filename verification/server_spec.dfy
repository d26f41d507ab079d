/** The hub as a value: what every handler of the mesh server does to its state, its outbound link
    and the traces the run-level properties speak of. */
module Hub {
  import opened Bytes
  import opened Clock
  import opened MacText
  import opened Wire
  import Nodes
  import Auth
  import Commands

  datatype Config = Config(me: Identity, healthTimeout: int, hasEventStore: bool)

  /** An event published to the broker. The address is part of the model only; the hub does not publish it. */
  datatype Event =
    | Health(mac: Bytes, nodeID: byte, name: string, online: bool, uptime: nat, hopCount: nat)
    | NodeOnline(mac: Bytes, nodeID: byte, name: string)
    | NodeOffline(mac: Bytes, nodeID: byte, name: string, lastSeen: Stamp, at: int)
    | Enrolled(mac: Bytes, nodeID: byte, name: string, typeName: string)
    | CommandAcked(id: Uuid, nodeID: byte)
    | RouteUpdate(mac: Bytes, nodeID: byte, parentID: Option<byte>)
    | Motion(mac: Bytes, nodeID: byte, name: string, zone: string, hopCount: nat)

  /** The trust trace: requests filed as pending, administrator decisions, and accepting JOIN_ACKs sent. */
  datatype TrustEvent =
    | Requested(mac: Mac, key: Key)
    | AdminApproved(mac: Mac, key: Key)
    | AdminRejected(mac: Mac)
    | Granted(frame: MeshMessage)

  /** What was sent for a command. */
  datatype Issue = Issue(adapterType: int, payload: Bytes)

  datatype State = State(
    cfg: Config,
    auth: Auth.Table,
    nodes: Nodes.Table,
    commands: Commands.Table,
    online: map<Bytes, bool>,
    tx: seq<MeshMessage>,
    trust: seq<TrustEvent>,
    events: seq<Event>,
    issued: map<Uuid, Issue>)

  function Init(cfg: Config): State {
    State(cfg, map[], map[], map[], map[], [], [], [], map[])
  }

  /** The choices map iteration makes inside one handler. */
  datatype Hints = Hints(holder: Bytes, command: Uuid)

  datatype ApprovalParams = ApprovalParams(nodeID: byte, name: string, zone: string, typeName: string)

  function TypeName(adapterType: int): string {
    if adapterType == TYPE_PIR then "pir"
    else if adapterType == TYPE_LED then "led"
    else if adapterType == TYPE_RELAY then "relay"
    else if adapterType == TYPE_SERIAL then "serial"
    else "unknown"
  }

  function TypeFromName(name: string): Option<int> {
    if name == "pir" then Some(TYPE_PIR)
    else if name == "led" then Some(TYPE_LED)
    else if name == "relay" then Some(TYPE_RELAY)
    else None
  }

  // ----- The outbound link and the event bus -----

  /** An accepting JOIN_ACK: the node that reads it counts itself enrolled. */
  predicate IsGrant(m: MeshMessage) {
    m.messageType == MSG_JOIN_ACK && |m.publicKey| == 32
  }

  function Send(h: State, m: MeshMessage): State {
    h.(tx := h.tx + [m], trust := if IsGrant(m) then h.trust + [Granted(m)] else h.trust)
  }

  function Publish(h: State, e: Event): State {
    h.(events := h.events + [e])
  }

  predicate IsOnline(h: State, mac: Bytes) {
    mac in h.online && h.online[mac]
  }

  // ----- Enrollment -----

  /** What an approval decides before it touches the registry: the ID, the node it displaces, and the
      fields the new node gets. `inherited` is TYPE_UNKNOWN when no adapter type is inherited. */
  datatype Assignment = Assignment(nodeID: byte, displaced: Option<Bytes>, name: string, zone: string, inherited: int)

  ghost function Decide(t: Nodes.Table, mac: Mac, p: ApprovalParams, hint: Bytes): Assignment {
    if p.nodeID == 0 then Assignment(Nodes.NextFree(t), None, p.name, p.zone, TYPE_UNKNOWN)
    else
      match Nodes.GetNodeByID(t, p.nodeID, hint)
      case None => Assignment(p.nodeID, None, p.name, p.zone, TYPE_UNKNOWN)
      case Some(k) =>
        if k == mac then Assignment(p.nodeID, None, p.name, p.zone, TYPE_UNKNOWN)
        else Assignment(p.nodeID, Some(k),
                        if p.name == "" then t[k].name else p.name,
                        if p.zone == "" then t[k].zone else p.zone,
                        if p.typeName == "" then t[k].adapterType else TYPE_UNKNOWN)
  }

  /** The new node is assigned first and the displaced one marked after, so for a moment both hold the ID. */
  function Install(t: Nodes.Table, mac: Mac, a: Assignment): Nodes.Table {
    var filled := Nodes.Assign(t, mac, a.nodeID, a.name, a.zone);
    if a.displaced.Some? then Nodes.MarkReplaced(filled, a.displaced.value, MacToString(mac)) else filled
  }

  function SendEnrollment(h: State, mac: Mac, key: Key, a: Assignment): State {
    var h1 := Send(h, JoinAckMsg(h.cfg.me, mac, key));
    var h2 := if a.nodeID > 0 then Send(h1, NodeIdSetMsg(h.cfg.me, mac, a.nodeID)) else h1;
    if a.inherited != TYPE_UNKNOWN then Send(h2, ConfigSetMsg(h.cfg.me, mac, a.inherited)) else h2
  }

  function EnrolledEvent(t: Nodes.Table, mac: Mac, p: ApprovalParams): Event
    requires mac in t
  {
    Enrolled(mac, t[mac].nodeID, t[mac].name, if p.typeName == "" then "unknown" else p.typeName)
  }

  /** ApproveEnrollment, shared by the administrator and the self-heal path. */
  ghost function Enroll(h: State, mac: Mac, p: ApprovalParams, hint: Bytes, now: int): State
    requires mac in h.auth
  {
    var a := Decide(h.nodes, mac, p, hint);
    var t := Install(h.nodes, mac, a);
    var h1 := h.(auth := Auth.Approve(h.auth, mac, now), nodes := t);
    SendEnrollment(Publish(h1, EnrolledEvent(t, mac, p)), mac, h.auth[mac].publicKey, a)
  }

  /** The administrator approves. An address that never asked is an error and changes nothing. */
  ghost function ApproveByAdmin(h: State, mac: Mac, p: ApprovalParams, hint: Bytes, now: int): State {
    if mac !in h.auth then h
    else Enroll(h.(trust := h.trust + [AdminApproved(mac, h.auth[mac].publicKey)]), mac, p, hint, now)
  }

  function RejectByAdmin(h: State, mac: Mac): State {
    if mac !in h.auth then h
    else Send(h.(auth := Auth.Reject(h.auth, mac), trust := h.trust + [AdminRejected(mac)]), RejectMsg(h.cfg.me, mac))
  }

  function ResendParams(t: Nodes.Table, mac: Mac): ApprovalParams {
    if mac in t then ApprovalParams(t[mac].nodeID, t[mac].name, t[mac].zone, TypeName(t[mac].adapterType))
    else ApprovalParams(0, "", "", "")
  }

  ghost function Resend(h: State, mac: Mac, hint: Bytes, now: int): State {
    if mac !in h.auth then h else Enroll(h, mac, ResendParams(h.nodes, mac), hint, now)
  }

  /** A well-formed request: at least six address bytes, of which the first six count, and a 32-byte key. */
  predicate IsRequest(m: MeshMessage) {
    |m.origin| >= 6 && |m.publicKey| == 32
  }

  ghost function HandleEnrollment(h: State, m: MeshMessage, hint: Bytes, now: int): State {
    if !IsRequest(m) then h
    else
      var mac: Mac, key: Key := m.origin[..6], m.publicKey;
      var h1 := h.(auth := Auth.AddPending(h.auth, mac, key, now));
      if Auth.IsRepeat(h.auth, mac, key) then Resend(h1, mac, hint, now)
      else h1.(trust := h.trust + [Requested(mac, key)])
  }

  // ----- Reports from nodes -----

  function PublishHealth(h: State, n: Nodes.NodeInfo, now: int): State {
    var h1 := Publish(h, Health(n.mac, n.nodeID, n.name, !Overdue(now, n.lastSeen, h.cfg.healthTimeout), n.uptime, n.hopCount));
    if IsOnline(h, n.mac) then h1
    else Publish(h1.(online := h1.online[n.mac := true]), NodeOnline(n.mac, n.nodeID, n.name))
  }

  function HandleHealth(h: State, m: MeshMessage, now: int): State {
    match ParseHealthReport(m)
    case None => h
    case Some(r) =>
      var t := Nodes.Update(h.nodes, r.mac, r.adapterType, r.uptime, r.hopCount, now);
      PublishHealth(h.(nodes := t), t[r.mac], now)
  }

  ghost function HandleAck(h: State, m: MeshMessage, hint: Uuid, now: int): State {
    if |m.data| < 3 then h
    else
      match Commands.FindByToken(h.commands, (m.data[1], m.data[2]), hint)
      case None => h
      case Some(id) =>
        Publish(h.(commands := Commands.MarkAcked(h.commands, id, now)), CommandAcked(id, h.commands[id].nodeID))
  }

  function HandleRoute(h: State, m: MeshMessage): State {
    match ParseRoute(m)
    case None => h
    case Some(relays) =>
      var t := Nodes.UpdateRoute(h.nodes, m.origin, relays);
      var h1 := h.(nodes := t);
      if t[m.origin].nodeID > 0 then Publish(h1, RouteUpdate(m.origin, t[m.origin].nodeID, t[m.origin].parentID)) else h1
  }

  /** Without an event store the handler returns before it publishes. */
  function HandleMotion(h: State, m: MeshMessage): State {
    if !h.cfg.hasEventStore || m.origin !in h.nodes then h
    else
      var n := h.nodes[m.origin];
      Publish(h, Motion(m.origin, n.nodeID, n.name, n.zone, n.hopCount))
  }

  ghost function HandleSerial(h: State, m: MeshMessage, hints: Hints, now: int): State {
    if m.data == [] then h
    else if m.data[0] == OP_HEALTH_REPORT || m.data[0] == OP_NODE_HEALTH then HandleHealth(h, m, now)
    else if m.data[0] == OP_COMMAND_ACK then HandleAck(h, m, hints.command, now)
    else h
  }

  /** Dispatch. Only protocol version 5 is read; every type and opcode without a handler is dropped. */
  ghost function HandleMessage(h: State, m: MeshMessage, hints: Hints, now: int): State {
    if m.protoVersion != 5 then h
    else if m.messageType == MSG_ADAPTER_DATA then
      if m.dataType == TYPE_SERIAL then HandleSerial(h, m, hints, now)
      else if m.dataType == TYPE_PIR then HandleMotion(h, m)
      else h
    else if m.messageType == MSG_ENROLLMENT then HandleEnrollment(h, m, hints.holder, now)
    else if m.messageType == MSG_ROUTE_REPORT then HandleRoute(h, m)
    else h
  }

  // ----- The offline detector -----

  function CheckOne(h: State, mac: Bytes, now: int): State
    requires mac in h.nodes
  {
    var n := h.nodes[mac];
    if Overdue(now, n.lastSeen, h.cfg.healthTimeout) && IsOnline(h, mac) then
      Publish(h.(online := h.online[mac := false]), NodeOffline(mac, n.nodeID, n.name, n.lastSeen, now))
    else h
  }

  /** The scan over all entries, in the order map iteration gives. */
  function CheckOffline(h: State, order: seq<Bytes>, now: int): (r: State)
    requires forall k | k in order :: k in h.nodes
    ensures r == h.(online := r.online, events := r.events)
  {
    if order == [] then h
    else
      var init := order[..|order| - 1];
      assert forall k | k in init :: k in order;
      CheckOne(CheckOffline(h, init, now), order[|order| - 1], now)
  }

  /** An order in which a loop may visit a set of keys: each exactly once. */
  ghost predicate IsOrder<T(!new)>(order: seq<T>, keys: set<T>) {
    && (forall k :: k in order <==> k in keys)
    && (forall i, j :: 0 <= i < j < |order| ==> order[i] != order[j])
  }

  // ----- The HTTP API, with parsed arguments -----

  /** The payload of a node command, with the token in its last two bytes; None for a bad request. */
  function CommandPayload(action: string, colour: Bytes, token: Token): (p: Option<Bytes>)
    ensures p.Some? ==> |p.value| == MAX_DATA && PayloadToken(p.value) == token
  {
    var tail := [token.0, token.1];
    if action == "led_solid" then
      if |colour| != 3 then None else Some([OP_LED_SOLID] + colour + Zeros(58) + tail)
    else if action == "led_off" then Some([OP_LED_OFF] + Zeros(61) + tail)
    else if action == "relay_on" then Some([OP_RELAY_SET, 1] + Zeros(60) + tail)
    else if action == "relay_off" then Some([OP_RELAY_SET, 0] + Zeros(60) + tail)
    else None
  }

  /** Building the payload and then writing the token over its last two bytes, as the handler does. */
  lemma TokenPatch(action: string, colour: Bytes, token: Token, p: Bytes)
    requires CommandPayload(action, colour, (0, 0)).Some? && |p| == MAX_DATA
    requires forall i :: 0 <= i < MAX_DATA - 2 ==> p[i] == CommandPayload(action, colour, (0, 0)).value[i]
    requires PayloadToken(p) == token
    ensures CommandPayload(action, colour, token) == Some(p)
  {
    assert CommandPayload(action, colour, token).value == p;
  }

  /** A command to the holder of `nodeID`; `id` is the UUID drawn for it. */
  ghost function NodeCommand(h: State, nodeID: byte, action: string, colour: Bytes, id: Uuid, hint: Bytes, now: int): State {
    match Nodes.GetNodeByID(h.nodes, nodeID, hint)
    case None => h
    case Some(k) =>
      var adapterType := h.nodes[k].adapterType;
      match CommandPayload(action, colour, Commands.TokenOf(id))
      case None => h
      case Some(payload) =>
        if !IsOutput(adapterType) then h
        else
          var cmd := Commands.PendingCommand(nodeID, action, At(now), Commands.Pending, Never);
          Send(h.(commands := h.commands[id := cmd], issued := h.issued[id := Issue(adapterType, payload)]),
               NodeDataMsg(adapterType, payload))
  }

  function ZoneSend(h: State, mac: Bytes, zone: string, payload: Bytes): State
    requires mac in h.nodes
  {
    var n := h.nodes[mac];
    if n.zone == zone && n.status != Nodes.REPLACED && IsOutput(n.adapterType) then Send(h, NodeDataMsg(n.adapterType, payload))
    else h
  }

  function ZoneSends(h: State, order: seq<Bytes>, zone: string, payload: Bytes): (r: State)
    requires forall k | k in order :: k in h.nodes
    ensures r == h.(tx := r.tx, trust := r.trust)
  {
    if order == [] then h
    else
      var init := order[..|order| - 1];
      assert forall k | k in init :: k in order;
      ZoneSend(ZoneSends(h, init, zone, payload), order[|order| - 1], zone, payload)
  }

  /** One frame for every output node of the zone. No command is stored and no token is set:
      the last two payload bytes stay zero. */
  function ZoneCommand(h: State, zone: string, action: string, colour: Bytes, order: seq<Bytes>): State
    requires forall k | k in order :: k in h.nodes
  {
    match CommandPayload(action, colour, (0, 0))
    case None => h
    case Some(payload) => ZoneSends(h, order, zone, payload)
  }

  /** None leaves a field as it is. A type that is not writable is refused before anything changes. */
  ghost function UpdateNode(h: State, nodeID: byte, name: Option<string>, zone: Option<string>,
                            typeName: Option<string>, hint: Bytes): State
  {
    match Nodes.GetNodeByID(h.nodes, nodeID, hint)
    case None => h
    case Some(k) =>
      if typeName.Some? && TypeFromName(typeName.value).None? then h
      else
        var n := h.nodes[k];
        var h1 := h.(nodes := Nodes.Assign(h.nodes, n.mac, n.nodeID, if name.Some? then name.value else n.name,
                                           if zone.Some? then zone.value else n.zone));
        if typeName.Some? then Configure(h1, n.mac, TypeFromName(typeName.value).value) else h1
  }

  ghost function DeleteNode(h: State, nodeID: byte, hint: Bytes): State {
    match Nodes.GetNodeByID(h.nodes, nodeID, hint)
    case None => h
    case Some(k) => h.(nodes := h.nodes - {k})
  }

  /** ConfigureNode: an error on an address that is not six bytes long. */
  function Configure(h: State, target: Bytes, adapterType: int): State {
    if |target| != MAC_LEN then h else Send(h, ConfigSetMsg(h.cfg.me, target, adapterType))
  }

  function RequestHealth(h: State): State {
    Send(h, HealthRequestMsg())
  }

  // ----- The net effect of an approval -----

  function EnrollmentFrames(me: Identity, mac: Mac, key: Key, a: Assignment): seq<MeshMessage> {
    [JoinAckMsg(me, mac, key)]
    + (if a.nodeID > 0 then [NodeIdSetMsg(me, mac, a.nodeID)] else [])
    + (if a.inherited != TYPE_UNKNOWN then [ConfigSetMsg(me, mac, a.inherited)] else [])
  }

  /** An approval touches the auth record, the registry, and appends one event, one grant and its frames. */
  lemma EnrollEffect(h: State, mac: Mac, p: ApprovalParams, hint: Bytes, now: int)
    requires mac in h.auth
    ensures var a := Decide(h.nodes, mac, p, hint);
      var key := h.auth[mac].publicKey;
      var t := Install(h.nodes, mac, a);
      mac in t && Enroll(h, mac, p, hint, now) == h.(
        auth := Auth.Approve(h.auth, mac, now),
        nodes := t,
        events := h.events + [EnrolledEvent(t, mac, p)],
        trust := h.trust + [Granted(JoinAckMsg(h.cfg.me, mac, key))],
        tx := h.tx + EnrollmentFrames(h.cfg.me, mac, key, a))
  {
    var a := Decide(h.nodes, mac, p, hint);
    var key := h.auth[mac].publicKey;
    var h0 := h.(auth := Auth.Approve(h.auth, mac, now), nodes := Install(h.nodes, mac, a));
    SendEnrollmentEffect(Publish(h0, EnrolledEvent(h0.nodes, mac, p)), mac, key, a);
  }

  lemma SendEnrollmentEffect(h: State, mac: Mac, key: Key, a: Assignment)
    ensures SendEnrollment(h, mac, key, a) == h.(
        tx := h.tx + EnrollmentFrames(h.cfg.me, mac, key, a),
        trust := h.trust + [Granted(JoinAckMsg(h.cfg.me, mac, key))])
  {
    var h1 := Send(h, JoinAckMsg(h.cfg.me, mac, key));
    var h2 := if a.nodeID > 0 then Send(h1, NodeIdSetMsg(h.cfg.me, mac, a.nodeID)) else h1;
    assert h2.tx == h.tx + ([JoinAckMsg(h.cfg.me, mac, key)]
                            + (if a.nodeID > 0 then [NodeIdSetMsg(h.cfg.me, mac, a.nodeID)] else []));
    assert SendEnrollment(h, mac, key, a).tx == h.tx + EnrollmentFrames(h.cfg.me, mac, key, a);
  }
}
