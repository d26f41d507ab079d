/** What each operation of the hub does, said outright: the entries, records, events and frames it leaves, in terms of what
    it was asked and what was there before, and nothing else changed. */
module Outcomes {
  import opened Bytes
  import opened Clock
  import opened MacText
  import opened Wire
  import opened HubEffects
  import opened Orders
  import opened ReportProofs
  import opened SimEffects
  import opened SimOutcomes
  import Nodes
  import Auth
  import Commands
  import EnrollmentProofs
  import Hub
  import Sim

  // ----- Approvals -----

  function TypeOrUnknown(typeName: string): string {
    if typeName == "" then "unknown" else typeName
  }

  /** An approval that displaces nobody: the entry gets the ID asked for, or the lowest free one, and the name and zone the
      administrator gave, the address text for no name; the node is sent the JOIN_ACK and its ID. */
  lemma ApprovalOutcome(h: Hub.State, mac: Mac, p: Hub.ApprovalParams, hint: Bytes, now: int)
    requires GoodTable(h.nodes) && mac in h.auth
    requires p.nodeID == 0 || forall k :: Nodes.Holds(h.nodes, k, p.nodeID) ==> k == mac
    ensures var r := Hub.ApproveByAdmin(h, mac, p, hint, now);
      var id := if p.nodeID == 0 then Nodes.NextFree(h.nodes) else p.nodeID;
      var name := if p.name == "" then MacToString(mac) else p.name;
      && r.nodes == h.nodes[mac := Nodes.Entry(h.nodes, mac).(nodeID := id, name := name, zone := p.zone)]
      && r.auth == h.auth[mac := h.auth[mac].(status := Auth.Approved, approvedAt := At(now))]
      && r.events == h.events + [Hub.Enrolled(mac, id, name, TypeOrUnknown(p.typeName))]
      && r.tx == h.tx + ([JoinAckMsg(h.cfg.me, mac, h.auth[mac].publicKey)]
                         + (if id > 0 then [NodeIdSetMsg(h.cfg.me, mac, id)] else []))
      && r.commands == h.commands && r.online == h.online && r.issued == h.issued
  {
    NobodyIsDisplaced(h.nodes, mac, p, hint);
    var h1 := h.(trust := h.trust + [Hub.AdminApproved(mac, h.auth[mac].publicKey)]);
    Hub.EnrollEffect(h1, mac, p, hint, now);
    PlainEnrollmentFrames(h.cfg.me, h.nodes, mac, h.auth[mac].publicKey, p, hint);
  }

  lemma NobodyIsDisplaced(t: Nodes.Table, mac: Mac, p: Hub.ApprovalParams, hint: Bytes)
    requires p.nodeID == 0 || forall k :: Nodes.Holds(t, k, p.nodeID) ==> k == mac
    ensures var a := Hub.Decide(t, mac, p, hint);
      var id := if p.nodeID == 0 then Nodes.NextFree(t) else p.nodeID;
      && a.nodeID == id && a.displaced == None && a.inherited == TYPE_UNKNOWN
      && Hub.Install(t, mac, a) == t[mac := Nodes.Entry(t, mac).(
           nodeID := id, name := if p.name == "" then MacToString(mac) else p.name, zone := p.zone)]
  {
  }

  lemma PlainEnrollmentFrames(me: Identity, t: Nodes.Table, mac: Mac, key: Key, p: Hub.ApprovalParams, hint: Bytes)
    requires p.nodeID == 0 || forall k :: Nodes.Holds(t, k, p.nodeID) ==> k == mac
    ensures var id := if p.nodeID == 0 then Nodes.NextFree(t) else p.nodeID;
      Hub.EnrollmentFrames(me, mac, key, Hub.Decide(t, mac, p, hint))
        == [JoinAckMsg(me, mac, key)] + (if id > 0 then [NodeIdSetMsg(me, mac, id)] else [])
  {
    NobodyIsDisplaced(t, mac, p, hint);
  }

  /** A hotswap announces the new node under the ID, and the name it was given or took over. */
  lemma HotswapIsAnnounced(h: Hub.State, mac: Mac, p: Hub.ApprovalParams, holder: Bytes, hint: Bytes, now: int)
    requires GoodTable(h.nodes) && mac in h.auth
    requires p.nodeID > 0 && Nodes.Holds(h.nodes, holder, p.nodeID) && holder != mac
    ensures Hub.ApproveByAdmin(h, mac, p, hint, now).events == h.events
      + [Hub.Enrolled(mac, p.nodeID, if p.name == "" then h.nodes[holder].name else p.name, TypeOrUnknown(p.typeName))]
  {
    EnrollmentProofs.HotswapTable(h.nodes, mac, p, holder, hint);
    var h1 := h.(trust := h.trust + [Hub.AdminApproved(mac, h.auth[mac].publicKey)]);
    Hub.EnrollEffect(h1, mac, p, hint, now);
  }

  /** An address that never asked cannot be approved or rejected. */
  lemma UnknownIsRefused(h: Hub.State, mac: Mac, p: Hub.ApprovalParams, hint: Bytes, now: int)
    requires mac !in h.auth
    ensures Hub.ApproveByAdmin(h, mac, p, hint, now) == h && Hub.RejectByAdmin(h, mac) == h
  {
  }

  /** A repeat that displaces nobody: an entry with an ID keeps it, one without, or a missing one, gets the lowest free ID;
      name and zone stay, the address text standing for no name. */
  lemma RepeatOutcome(h: Hub.State, m: MeshMessage, hint: Bytes, now: int)
    requires GoodTable(h.nodes) && EnrollmentProofs.IsRepeatRequest(h, m)
    requires var mac := m.origin[..6];
      mac in h.nodes && h.nodes[mac].nodeID > 0 ==> forall k :: Nodes.Holds(h.nodes, k, h.nodes[mac].nodeID) ==> k == mac
    ensures var r, mac: Mac := Hub.HandleEnrollment(h, m, hint, now), m.origin[..6];
      var was := Nodes.Entry(h.nodes, mac);
      r.nodes == h.nodes[mac := was.(nodeID := if was.nodeID == 0 then Nodes.NextFree(h.nodes) else was.nodeID,
                                     name := if was.name == "" then MacToString(mac) else was.name)]
  {
    var mac: Mac := m.origin[..6];
    EnrollmentProofs.RepeatEffect(h, m, hint, now);
    NobodyIsDisplaced(h.nodes, mac, Hub.ResendParams(h.nodes, mac), hint);
  }

  /** A rejection marks the record and tells the node, with a JOIN_ACK that carries no key, and changes nothing else. */
  lemma RejectionOutcome(h: Hub.State, mac: Mac)
    requires mac in h.auth
    ensures var r := Hub.RejectByAdmin(h, mac);
      && r.auth == h.auth[mac := h.auth[mac].(status := Auth.Rejected)]
      && |r.tx| == |h.tx| + 1 && r.tx[..|h.tx|] == h.tx
      && r.tx[|h.tx|].messageType == MSG_JOIN_ACK && r.tx[|h.tx|].publicKey == [] && r.tx[|h.tx|].target == mac
      && r == h.(auth := r.auth, tx := r.tx, trust := r.trust)
  {
  }

  /** The node that reads it is marked rejected, so that it stops asking, and no other node changes. */
  lemma RejectionStopsNode(h: Hub.State, s: Sim.State, mac: Mac, order: seq<Mac>, now: int)
    requires mac in h.auth && mac in s.nodes && Hub.IsOrder(order, s.nodes.Keys)
    ensures var f := Hub.RejectByAdmin(h, mac).tx[|h.tx|];
      var r := Sim.HandleFrame(s, f, order);
      && r.tx == s.tx && r.nodes == s.nodes[mac := s.nodes[mac].(rejected := true)]
      && !AsksNow(r.nodes[mac], now)
  {
    var f := Hub.RejectByAdmin(h, mac).tx[|h.tx|];
    var who := FrameExactly(s, f, order);
    assert f.target[..6] == mac;
    assert forall k | k in s.nodes && k != mac :: AfterFrame(s.nodes[k], f, k) == s.nodes[k];
  }

  // ----- Requests to join -----

  /** A well-formed request that is not a repeat is filed as pending, under its own key, and answered by nothing. */
  lemma RequestIsFiled(h: Hub.State, m: MeshMessage, hints: Hub.Hints, now: int)
    requires m.protoVersion == 5 && m.messageType == MSG_ENROLLMENT && |m.origin| >= 6 && |m.publicKey| == 32
    requires !Auth.IsRepeat(h.auth, m.origin[..6], m.publicKey)
    ensures var r, mac: Mac := Hub.HandleMessage(h, m, hints, now), m.origin[..6];
      && r.auth == h.auth[mac := Auth.NodeAuth(mac, m.publicKey, Auth.Pending, At(now), Never)]
      && r == h.(auth := r.auth, trust := r.trust)
  {
  }

  /** Frames the hub drops: another protocol version, a malformed request, a kind or opcode it does not handle. */
  lemma DroppedFrames(h: Hub.State, m: MeshMessage, hints: Hub.Hints, now: int)
    requires
      || m.protoVersion != 5
      || m.messageType !in {MSG_ADAPTER_DATA, MSG_ENROLLMENT, MSG_ROUTE_REPORT}
      || (m.messageType == MSG_ENROLLMENT && (|m.origin| < 6 || |m.publicKey| != 32))
      || (m.messageType == MSG_ADAPTER_DATA && m.dataType !in {TYPE_SERIAL, TYPE_PIR})
      || (m.messageType == MSG_ADAPTER_DATA && m.dataType == TYPE_SERIAL
          && (m.data == [] || m.data[0] !in {OP_HEALTH_REPORT, OP_NODE_HEALTH, OP_COMMAND_ACK}))
    ensures Hub.HandleMessage(h, m, hints, now) == h
  {
  }

  // ----- Commands -----

  predicate IsAction(action: string, colour: Bytes) {
    action in {"led_solid", "led_off", "relay_on", "relay_off"} && (action == "led_solid" ==> |colour| == 3)
  }

  /** The frame tells nodes of this type to carry out this action, and carries this token. */
  predicate Tells(f: MeshMessage, adapterType: int, action: string, colour: Bytes, token: Token) {
    && f.messageType == MSG_SERIAL_CMD_BROADCAST && f.dataType == adapterType && |f.data| == MAX_DATA
    && ReadCommand(f.data) == Some((action, if action == "led_solid" then colour else []))
    && PayloadToken(f.data) == token
  }

  lemma PayloadCommands(adapterType: int, action: string, colour: Bytes, token: Token)
    requires IsAction(action, colour)
    ensures Hub.CommandPayload(action, colour, token).Some?
    ensures Tells(NodeDataMsg(adapterType, Hub.CommandPayload(action, colour, token).value), adapterType, action, colour, token)
  {
    CommandReadsBack(action, colour, token);
    var p := Hub.CommandPayload(action, colour, token).value;
    assert NodeDataMsg(adapterType, p).data == p;
  }

  lemma IssueToHolder(h: Hub.State, nodeID: byte, action: string, colour: Bytes, id: Uuid, holder: Bytes, hint: Bytes, now: int)
    requires GoodTable(h.nodes) && nodeID > 0 && Nodes.Holds(h.nodes, holder, nodeID)
    ensures var r := Hub.NodeCommand(h, nodeID, action, colour, id, hint, now);
      var ty, p := h.nodes[holder].adapterType, Hub.CommandPayload(action, colour, Commands.TokenOf(id));
      if ty in {TYPE_LED, TYPE_RELAY} && p.Some? then
        r == h.(commands := h.commands[id := Commands.PendingCommand(nodeID, action, At(now), Commands.Pending, Never)],
                issued := r.issued, tx := h.tx + [NodeDataMsg(ty, p.value)])
      else r == h
  {
    assert Nodes.GetNodeByID(h.nodes, nodeID, hint) == Some(holder);
  }

  /** A command to the node that holds an ID is accepted exactly when that node is a light or a relay and the action is one
      of the four, a solid light needing three colour bytes. Then exactly one frame is sent, which tells nodes of the
      holder's type to carry out that action, with the last two bytes of the UUID as token, and the command is
      stored as pending. Otherwise nothing changes. */
  lemma NodeCommandOutcome(h: Hub.State, nodeID: byte, action: string, colour: Bytes, id: Uuid, holder: Bytes,
                           hint: Bytes, now: int)
    requires GoodTable(h.nodes) && nodeID > 0 && Nodes.Holds(h.nodes, holder, nodeID)
    ensures var r := Hub.NodeCommand(h, nodeID, action, colour, id, hint, now);
      && (r != h <==> h.nodes[holder].adapterType in {TYPE_LED, TYPE_RELAY} && IsAction(action, colour))
      && (r != h ==> |r.tx| == |h.tx| + 1 && r.tx[..|h.tx|] == h.tx)
      && (r != h ==> Tells(r.tx[|h.tx|], h.nodes[holder].adapterType, action, colour, (id[14], id[15])))
      && (r != h ==> r.commands == h.commands[id := Commands.PendingCommand(nodeID, action, At(now), Commands.Pending, Never)])
      && r == h.(commands := r.commands, issued := r.issued, tx := r.tx)
  {
    IssueToHolder(h, nodeID, action, colour, id, holder, hint, now);
    CommandReadsBack(action, colour, Commands.TokenOf(id));
    if IsAction(action, colour) {
      PayloadCommands(h.nodes[holder].adapterType, action, colour, Commands.TokenOf(id));
    }
  }

  /** An ID nobody holds is an error, for a command, an edit and a deletion alike. */
  lemma UnheldIDIsRefused(h: Hub.State, nodeID: byte, action: string, colour: Bytes, id: Uuid, name: Option<string>,
                          zone: Option<string>, typeName: Option<string>, hint: Bytes, now: int)
    requires forall k :: !Nodes.Holds(h.nodes, k, nodeID)
    ensures Hub.NodeCommand(h, nodeID, action, colour, id, hint, now) == h
    ensures Hub.UpdateNode(h, nodeID, name, zone, typeName, hint) == h
    ensures Hub.DeleteNode(h, nodeID, hint) == h
  {
    assert Nodes.GetNodeByID(h.nodes, nodeID, hint) == None;
  }

  predicate IsRecipient(n: Nodes.NodeInfo, zone: string) {
    n.zone == zone && n.status != "replaced" && n.adapterType in {TYPE_LED, TYPE_RELAY}
  }

  function Recipients(t: Nodes.Table, zone: string): set<Bytes> {
    set k | k in t && IsRecipient(t[k], zone)
  }

  lemma {:induction false} ZoneSendsTo(h: Hub.State, order: seq<Bytes>, zone: string, payload: Bytes)
    requires forall k | k in order :: k in h.nodes
    ensures var r, who := Hub.ZoneSends(h, order, zone, payload), Chosen(order, Recipients(h.nodes, zone));
      && (forall k | k in who :: k in h.nodes)
      && |r.tx| == |h.tx| + |who| && r.tx[..|h.tx|] == h.tx && r == h.(tx := r.tx)
      && forall i :: 0 <= i < |who| ==> r.tx[|h.tx| + i] == NodeDataMsg(h.nodes[who[i]].adapterType, payload)
  {
    ChosenMembers(order, Recipients(h.nodes, zone));
    if order != [] {
      var init, last := order[..|order| - 1], order[|order| - 1];
      assert forall k | k in init :: k in order;
      ZoneSendsTo(h, init, zone, payload);
      assert Hub.ZoneSends(h, order, zone, payload) == Hub.ZoneSend(Hub.ZoneSends(h, init, zone, payload), last, zone, payload);
    }
  }

  /** A command to a zone, in whatever order the entries are met: one frame for each light and relay of the zone that is not
      replaced, to its own type, with the action and no token, and nothing else; an unknown action does nothing. */
  lemma ZoneCommandOutcome(h: Hub.State, zone: string, action: string, colour: Bytes, order: seq<Bytes>) returns (who: seq<Bytes>)
    requires Hub.IsOrder(order, h.nodes.Keys)
    ensures !IsAction(action, colour) ==> Hub.ZoneCommand(h, zone, action, colour, order) == h
    ensures Hub.IsOrder(who, set k | k in h.nodes && IsRecipient(h.nodes[k], zone))
    ensures IsAction(action, colour) ==>
      var r := Hub.ZoneCommand(h, zone, action, colour, order);
      && |r.tx| == |h.tx| + |who| && r.tx[..|h.tx|] == h.tx && r == h.(tx := r.tx)
      && forall i :: 0 <= i < |who| ==>
           who[i] in h.nodes && Tells(r.tx[|h.tx| + i], h.nodes[who[i]].adapterType, action, colour, (0, 0))
  {
    who := Chosen(order, Recipients(h.nodes, zone));
    ChosenIsOrder(order, h.nodes.Keys, Recipients(h.nodes, zone));
    CommandReadsBack(action, colour, (0, 0));
    if IsAction(action, colour) {
      var payload := Hub.CommandPayload(action, colour, (0, 0)).value;
      ZoneSendsTo(h, order, zone, payload);
      forall i | 0 <= i < |who|
        ensures Tells(NodeDataMsg(h.nodes[who[i]].adapterType, payload), h.nodes[who[i]].adapterType, action, colour, (0, 0))
      {
        PayloadCommands(h.nodes[who[i]].adapterType, action, colour, (0, 0));
      }
    }
  }

  /** Configuring a six-byte address sends one frame, which sets that node's type, cut to a byte, and no other node's, and
      nobody's ID; any other address is an error and changes nothing. */
  lemma ConfigureOutcome(h: Hub.State, target: Bytes, adapterType: int, k: Bytes)
    ensures var r := Hub.Configure(h, target, adapterType);
      if |target| != 6 then r == h
      else
        && |r.tx| == |h.tx| + 1 && r.tx[..|h.tx|] == h.tx && r == h.(tx := r.tx)
        && var f := r.tx[|h.tx|];
           (SetsTypeOf(f, k) <==> k == target) && !SetsIDOf(f, k) && |f.data| == MAX_DATA && f.data[7] == adapterType % 256
  {
    if |target| == 6 {
      var f := ConfigSetMsg(h.cfg.me, target, adapterType);
      assert f.data[1..7] == target;
    }
  }

  /** Asking for health sends one frame, after which every node's heartbeat is due and nothing else has changed. */
  lemma HealthRequestOutcome(h: Hub.State, s: Sim.State, order: seq<Mac>)
    requires Hub.IsOrder(order, s.nodes.Keys)
    ensures var r := Hub.RequestHealth(h);
      && |r.tx| == |h.tx| + 1 && r.tx[..|h.tx|] == h.tx && r == h.(tx := r.tx)
      && var q := Sim.HandleFrame(s, r.tx[|h.tx|], order);
         && q.tx == s.tx && q.nodes.Keys == s.nodes.Keys
         && forall k | k in s.nodes :: q.nodes[k] == s.nodes[k].(lastHeartbeat := Never)
  {
    var f := HealthRequestMsg();
    assert f.data[0] == OP_HEALTH_REQ;
    var who := FrameExactly(s, f, order);
  }

  /** The type names of the API. */
  lemma TypeNames(name: string)
    ensures Hub.TypeFromName("pir") == Some(2) && Hub.TypeFromName("led") == Some(3) && Hub.TypeFromName("relay") == Some(4)
    ensures Hub.TypeFromName(name).Some? <==> name in {"pir", "led", "relay"}
    ensures Hub.TypeFromName(name).Some? ==> Hub.TypeName(Hub.TypeFromName(name).value) == name
  {
  }

  // ----- Reports and events -----

  /** A health report is announced under the entry's ID and name, with the uptime and hops of the frame, as online as the
      timeout allows; and the node comes online exactly when it was not. */
  lemma HealthIsAnnounced(h: Hub.State, m: MeshMessage, hints: Hub.Hints, now: int)
    requires Nodes.Keyed(h.nodes) && m.protoVersion == 5 && m.messageType == MSG_ADAPTER_DATA && m.dataType == TYPE_SERIAL
    requires |m.data| >= 12 && m.data[0] in {OP_HEALTH_REPORT, OP_NODE_HEALTH}
    ensures var r, mac := Hub.HandleMessage(h, m, hints, now), m.data[2..8];
      var n := Nodes.Entry(h.nodes, mac);
      var wasOnline := mac in h.online && h.online[mac];
      && r.events == h.events
           + [Hub.Health(mac, n.nodeID, n.name, 0 <= h.cfg.healthTimeout, Uint32(m.data[8..12]), m.hopCount)]
           + (if wasOnline then [] else [Hub.NodeOnline(mac, n.nodeID, n.name)])
      && r.online == h.online[mac := true]
      && r == h.(nodes := r.nodes, events := r.events, online := r.online)
  {
    var mac := m.data[2..8];
    assert mac in h.online && h.online[mac] ==> h.online[mac := true] == h.online;
  }

  /** An acknowledgement acknowledges one pending command with its token and announces it under its own node ID; when there
      is none, or the frame is short, nothing changes. */
  lemma AckOutcome(h: Hub.State, m: MeshMessage, hints: Hub.Hints, now: int)
    requires m.protoVersion == 5 && m.messageType == MSG_ADAPTER_DATA && m.dataType == TYPE_SERIAL
    requires m.data != [] && m.data[0] == OP_COMMAND_ACK
    ensures var r := Hub.HandleMessage(h, m, hints, now);
      if |m.data| < 3 || forall id :: !Commands.Matches(h.commands, id, (m.data[1], m.data[2])) then r == h
      else
        exists id :: Commands.Matches(h.commands, id, (m.data[1], m.data[2]))
          && r == h.(commands := h.commands[id := h.commands[id].(status := Commands.Acked, ackedAt := At(now))],
                     events := h.events + [Hub.CommandAcked(id, h.commands[id].nodeID)])
  {
    if |m.data| >= 3 {
      var found := Commands.FindByToken(h.commands, (m.data[1], m.data[2]), hints.command);
      assert found.Some? ==> Commands.Matches(h.commands, found.value, (m.data[1], m.data[2]));
    }
  }

  /** The ID of the first relay, when that relay is known and has one. */
  function ParentFrom(t: Nodes.Table, path: Bytes, hops: nat): Option<byte> {
    if hops > 0 && |path| >= 6 && path[..6] in t && t[path[..6]].nodeID > 0 then Some(t[path[..6]].nodeID) else None
  }

  lemma RouteEntry(t: Nodes.Table, m: MeshMessage, relays: seq<Mac>)
    requires ParseRoute(m) == Some(relays)
    ensures var u, hops := Nodes.UpdateRoute(t, m.origin, relays), |relays|;
      && m.origin in u && |u[m.origin].routePath| == hops
      && (forall i :: 0 <= i < hops ==> u[m.origin].routePath[i] == MacToString(m.routePath[6 * i..6 * i + 6]))
      && u == t[m.origin := Nodes.Entry(t, m.origin).(routePath := u[m.origin].routePath,
                                                      parentID := ParentFrom(t, m.routePath, hops))]
  {
    if |relays| > 0 {
      assert relays[0] == m.routePath[..6];
    }
  }

  /** A route report of at most ten relays whose addresses are all there stores their texts in order, and as parent the ID the
      first relay has at that moment; it is announced when the entry has an ID. Any other route report does nothing. */
  lemma RouteOutcome(h: Hub.State, m: MeshMessage, hints: Hub.Hints, now: int)
    requires m.protoVersion == 5 && m.messageType == MSG_ROUTE_REPORT
    ensures var r, hops := Hub.HandleMessage(h, m, hints, now), if m.routeLen.Some? then m.routeLen.value else 0;
      var was, parent := Nodes.Entry(h.nodes, m.origin), ParentFrom(h.nodes, m.routePath, hops);
      if hops > 10 || |m.routePath| < 6 * hops then r == h
      else
        && m.origin in r.nodes && |r.nodes[m.origin].routePath| == hops
        && (forall i :: 0 <= i < hops ==> r.nodes[m.origin].routePath[i] == MacToString(m.routePath[6 * i..6 * i + 6]))
        && r.nodes == h.nodes[m.origin := was.(routePath := r.nodes[m.origin].routePath, parentID := parent)]
        && r.events == h.events + (if was.nodeID > 0 then [Hub.RouteUpdate(m.origin, was.nodeID, parent)] else [])
        && r == h.(nodes := r.nodes, events := r.events)
  {
    var relays := ParseRoute(m);
    if relays.Some? {
      RouteEntry(h.nodes, m, relays.value);
    }
  }

  /** Motion at a known node is announced, with an event store, under the entry's own ID, name, zone and hops; otherwise
      nothing changes. */
  lemma MotionOutcome(h: Hub.State, m: MeshMessage, hints: Hub.Hints, now: int)
    requires m.protoVersion == 5 && m.messageType == MSG_ADAPTER_DATA && m.dataType == TYPE_PIR
    ensures var r := Hub.HandleMessage(h, m, hints, now);
      if h.cfg.hasEventStore && m.origin in h.nodes then
        var n := h.nodes[m.origin];
        r == h.(events := h.events + [Hub.Motion(m.origin, n.nodeID, n.name, n.zone, n.hopCount)])
      else r == h
  {
  }
}
