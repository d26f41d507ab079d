/** Commands over whole runs: acknowledgements and command_ack events match one for one, and a command is acknowledged
    only because a node that could carry it out received it. */
module CorrelationProofs {
  import opened Bytes
  import opened Wire
  import opened HubRuns
  import opened Protocol
  import opened SimEffects
  import opened HubEffects
  import Auth
  import Clock
  import Commands
  import Hub
  import Nodes
  import Sim

  const NO_TOKEN: Token := (0, 0)

  /** A command frame is a zone command, which carries no token, or exactly what was sent for some issued command. */
  ghost predicate IsTraceable(issued: map<Uuid, Hub.Issue>, m: MeshMessage) {
    IsCommandFrame(m) ==>
      PayloadToken(m.data) == NO_TOKEN
      || exists id :: id in issued && TracesTo(issued, id, m)
  }

  ghost predicate TracesTo(issued: map<Uuid, Hub.Issue>, id: Uuid, m: MeshMessage)
    requires id in issued
  {
    m == NodeDataMsg(issued[id].adapterType, issued[id].payload) && |m.data| >= MAX_DATA
    && PayloadToken(m.data) == Commands.TokenOf(id)
  }

  /** A command frame with this token reached a node that was then enrolled, powered and of the frame's type. */
  ghost predicate Reached(log: seq<Sim.Arrival>, token: Token) {
    exists d, k :: d in log && k in d.nodes && IsCommandFrame(d.frame)
                && PayloadToken(d.frame.data) == token && Sim.Accepts(d.nodes[k], d.frame)
  }

  function AckCount(events: seq<Hub.Event>, id: Uuid): nat {
    if events == [] then 0
    else
      var e := events[|events| - 1];
      AckCount(events[..|events| - 1], id) + (if e.CommandAcked? && e.id == id then 1 else 0)
  }

  predicate IsAcked(t: Commands.Table, id: Uuid) {
    id in t && t[id].status == Commands.Acked
  }

  /** What was sent for a command went to an output type, and carries that command's token. */
  predicate IsIssueOf(id: Uuid, issue: Hub.Issue) {
    IsOutput(issue.adapterType) && |issue.payload| == MAX_DATA && PayloadToken(issue.payload) == Commands.TokenOf(id)
  }

  ghost predicate WellIssued(issued: map<Uuid, Hub.Issue>) {
    forall id :: id in issued ==> IsIssueOf(id, issued[id])
  }

  ghost predicate HubCommands(h: Hub.State) {
    && h.issued.Keys == h.commands.Keys && WellIssued(h.issued)
    && (forall i :: 0 <= i < |h.tx| ==> IsTraceable(h.issued, h.tx[i]))
    && (forall id :: AckCount(h.events, id) == if IsAcked(h.commands, id) then 1 else 0)
  }

  ghost predicate CommandInv(s: System) {
    && HubCommands(s.hub)
    && (forall d :: d in s.sim.log ==> IsTraceable(s.hub.issued, d.frame))
    && (forall i :: 0 <= i < |s.sim.tx| && IsAck(s.sim.tx[i]) ==> Reached(s.sim.log, (s.sim.tx[i].data[1], s.sim.tx[i].data[2])))
    && (forall id :: IsAcked(s.hub.commands, id) ==> Reached(s.sim.log, Commands.TokenOf(id)))
  }

  // ----- Small facts -----

  lemma ReachedGrows(log: seq<Sim.Arrival>, more: seq<Sim.Arrival>, token: Token)
    requires log <= more && Reached(log, token)
    ensures Reached(more, token)
  {
    var d, k :| d in log && k in d.nodes && IsCommandFrame(d.frame)
             && PayloadToken(d.frame.data) == token && Sim.Accepts(d.nodes[k], d.frame);
    assert d in more;
  }

  /** Only events that are no acknowledgements were added. */
  ghost predicate AddsNoAcks(events: seq<Hub.Event>, more: seq<Hub.Event>) {
    events <= more && forall i :: |events| <= i < |more| ==> !more[i].CommandAcked?
  }

  lemma {:induction false} NoAcksSameCount(events: seq<Hub.Event>, more: seq<Hub.Event>, id: Uuid)
    requires AddsNoAcks(events, more)
    ensures AckCount(more, id) == AckCount(events, id)
  {
    if |more| > |events| {
      NoAcksSameCount(events, more[..|more| - 1], id);
    } else {
      assert more == events;
    }
  }

  /** A step that issues and acknowledges nothing; what it sends is not a command, or carries no token. */
  ghost predicate Quiet(h: Hub.State, r: Hub.State) {
    && r.commands == h.commands && r.issued == h.issued && AddsNoAcks(h.events, r.events)
    && h.tx <= r.tx
    && forall i :: |h.tx| <= i < |r.tx| && IsCommandFrame(r.tx[i]) ==> PayloadToken(r.tx[i].data) == NO_TOKEN
  }

  lemma QuietKeepsCommands(h: Hub.State, r: Hub.State)
    requires HubCommands(h) && Quiet(h, r)
    ensures HubCommands(r) && CommandsGrow(h, r)
  {
    forall i | 0 <= i < |r.tx| ensures IsTraceable(r.issued, r.tx[i]) {
      if i < |h.tx| {
        assert r.tx[i] == h.tx[i];
      }
    }
    forall id ensures AckCount(r.events, id) == if IsAcked(r.commands, id) then 1 else 0 {
      NoAcksSameCount(h.events, r.events, id);
    }
  }

  // ----- Which steps are quiet -----

  lemma EnrollQuiet(h: Hub.State, mac: Mac, p: Hub.ApprovalParams, hint: Bytes, now: int)
    requires mac in h.auth
    ensures Quiet(h, Hub.Enroll(h, mac, p, hint, now))
  {
    Hub.EnrollEffect(h, mac, p, hint, now);
  }

  lemma EnrollmentQuiet(h: Hub.State, m: MeshMessage, hint: Bytes, now: int)
    ensures Quiet(h, Hub.HandleEnrollment(h, m, hint, now))
  {
    if Hub.IsRequest(m) {
      var mac: Mac, key: Key := m.origin[..6], m.publicKey;
      var h1 := h.(auth := Auth.AddPending(h.auth, mac, key, now));
      EnrollQuiet(h1, mac, Hub.ResendParams(h1.nodes, mac), hint, now);
    }
  }

  lemma CheckQuiet(h: Hub.State, order: seq<Bytes>, now: int)
    requires forall k | k in order :: k in h.nodes
    ensures Quiet(h, Hub.CheckOffline(h, order, now))
  {
    if order != [] {
      var init := order[..|order| - 1];
      assert forall k | k in init :: k in order;
      CheckQuiet(h, init, now);
    }
  }

  lemma ZoneQuiet(h: Hub.State, order: seq<Bytes>, zone: string, payload: Bytes)
    requires (forall k | k in order :: k in h.nodes) && |payload| == MAX_DATA && PayloadToken(payload) == NO_TOKEN
    ensures Quiet(h, Hub.ZoneSends(h, order, zone, payload))
  {
    if order != [] {
      var init := order[..|order| - 1];
      assert forall k | k in init :: k in order;
      ZoneQuiet(h, init, zone, payload);
      assert NodeDataMsg(h.nodes[order[|order| - 1]].adapterType, payload).data == payload;
    }
  }

  lemma ApproveQuiet(h: Hub.State, mac: Mac, p: Hub.ApprovalParams, hint: Bytes, now: int)
    ensures Quiet(h, Hub.ApproveByAdmin(h, mac, p, hint, now))
  {
    if mac in h.auth {
      EnrollQuiet(h.(trust := h.trust + [Hub.AdminApproved(mac, h.auth[mac].publicKey)]), mac, p, hint, now);
    }
  }

  lemma UpdateQuiet(h: Hub.State, a: Action)
    requires a.UpdateNode?
    ensures Quiet(h, Hub.UpdateNode(h, a.nodeID, a.name, a.zone, a.typeName, a.hint))
  {
  }

  lemma DeleteQuiet(h: Hub.State, nodeID: byte, hint: Bytes)
    ensures Quiet(h, Hub.DeleteNode(h, nodeID, hint))
  {
  }

  lemma RejectQuiet(h: Hub.State, mac: Mac)
    ensures Quiet(h, Hub.RejectByAdmin(h, mac))
  {
  }

  lemma ZoneCommandQuiet(h: Hub.State, zone: string, command: string, colour: Bytes, order: seq<Bytes>)
    requires forall k | k in order :: k in h.nodes
    ensures Quiet(h, Hub.ZoneCommand(h, zone, command, colour, order))
  {
    var p := Hub.CommandPayload(command, colour, (0, 0));
    if p.Some? {
      ZoneQuiet(h, order, zone, p.value);
    }
  }

  lemma SendQuiet(h: Hub.State, a: Action, now: int)
    requires a.Configure? || a.RequestHealth? || a.DeliverUp? || a.DeliverDown? || a.Tick? || a.Spawn? || a.FireMotion?
      || a.SetOffline? || a.Wait?
    ensures Quiet(h, HubStep(h, a, now))
  {
  }

  /** Every step of the hub's own except issuing a command. */
  lemma QuietStep(h: Hub.State, a: Action, now: int)
    requires a.ZoneCommand? || a.CheckOffline? ==> Hub.IsOrder(a.entries, h.nodes.Keys)
    requires !a.NodeCommand?
    ensures Quiet(h, HubStep(h, a, now))
  {
    if a.AdminApprove? {
      ApproveQuiet(h, a.mac, a.params, a.hint, now);
    } else if a.AdminReject? {
      RejectQuiet(h, a.mac);
    } else if a.UpdateNode? {
      UpdateQuiet(h, a);
    } else if a.DeleteNode? {
      DeleteQuiet(h, a.nodeID, a.hint);
    } else if a.ZoneCommand? {
      ZoneCommandQuiet(h, a.zoneName, a.command, a.colour, a.entries);
    } else if a.CheckOffline? {
      CheckQuiet(h, a.entries, now);
    } else {
      SendQuiet(h, a, now);
    }
  }

  lemma PublishHealthQuiet(h: Hub.State, n: Nodes.NodeInfo, now: int)
    ensures Quiet(h, Hub.PublishHealth(h, n, now))
  {
  }

  lemma HealthQuiet(h: Hub.State, m: MeshMessage, now: int)
    ensures Quiet(h, Hub.HandleHealth(h, m, now))
  {
    var report := ParseHealthReport(m);
    if report.Some? {
      var r := report.value;
      var t := Nodes.Update(h.nodes, r.mac, r.adapterType, r.uptime, r.hopCount, now);
      PublishHealthQuiet(h.(nodes := t), t[r.mac], now);
    }
  }

  lemma RouteQuiet(h: Hub.State, m: MeshMessage)
    ensures Quiet(h, Hub.HandleRoute(h, m))
  {
  }

  lemma MotionQuiet(h: Hub.State, m: MeshMessage)
    ensures Quiet(h, Hub.HandleMotion(h, m))
  {
  }

  /** Every frame except an acknowledgement. */
  lemma QuietMessage(h: Hub.State, m: MeshMessage, hints: Hub.Hints, now: int)
    requires !IsAck(m)
    ensures Quiet(h, Hub.HandleMessage(h, m, hints, now))
  {
    if m.messageType == MSG_ENROLLMENT {
      EnrollmentQuiet(h, m, hints.holder, now);
    } else if m.messageType == MSG_ROUTE_REPORT {
      RouteQuiet(h, m);
    } else {
      HealthQuiet(h, m, now);
      MotionQuiet(h, m);
    }
  }

  // ----- Issuing and acknowledging -----

  /** Nothing issued is forgotten, and nothing acknowledged is undone. */
  ghost predicate CommandsGrow(h: Hub.State, r: Hub.State) {
    && (forall id :: id in h.issued ==> id in r.issued && r.issued[id] == h.issued[id])
    && (forall id :: IsAcked(h.commands, id) ==> IsAcked(r.commands, id))
  }

  /** What issuing the command `id` does: it is stored as pending, and its payload is sent as one frame. */
  function Issued(h: Hub.State, id: Uuid, issue: Hub.Issue, nodeID: byte, command: string, now: int): Hub.State {
    h.(commands := h.commands[id := Commands.PendingCommand(nodeID, command, Clock.At(now), Commands.Pending, Clock.Never)],
       issued := h.issued[id := issue],
       tx := h.tx + [NodeDataMsg(issue.adapterType, issue.payload)])
  }

  /** A command is refused and changes nothing, or is issued to an output type with its own token in the payload. */
  lemma IssueEffect(h: Hub.State, nodeID: byte, command: string, colour: Bytes, id: Uuid, hint: Bytes, now: int)
    ensures var r := Hub.NodeCommand(h, nodeID, command, colour, id, hint, now);
      r == h || (id in r.issued && IsIssueOf(id, r.issued[id]) && r == Issued(h, id, r.issued[id], nodeID, command, now))
  {
  }

  lemma IssueIsTraceable(h: Hub.State, id: Uuid, issue: Hub.Issue, m: MeshMessage)
    requires IsIssueOf(id, issue) && id !in h.issued
    requires IsTraceable(h.issued, m) || m == NodeDataMsg(issue.adapterType, issue.payload)
    ensures IsTraceable(h.issued[id := issue], m)
  {
    if m == NodeDataMsg(issue.adapterType, issue.payload) {
      assert Padded(issue.payload) == issue.payload;
      assert TracesTo(h.issued[id := issue], id, m);
    } else {
      TraceSurvives(h.issued, h.issued[id := issue], m);
    }
  }

  lemma IssueKeepsCommands(h: Hub.State, id: Uuid, issue: Hub.Issue, nodeID: byte, command: string, now: int)
    requires HubCommands(h) && id !in h.commands && IsIssueOf(id, issue)
    ensures var r := Issued(h, id, issue, nodeID, command, now);
      && HubCommands(r) && CommandsGrow(h, r)
      && forall other :: IsAcked(r.commands, other) <==> IsAcked(h.commands, other)
  {
    var r := Issued(h, id, issue, nodeID, command, now);
    forall i | 0 <= i < |r.tx| ensures IsTraceable(r.issued, r.tx[i]) {
      IssueIsTraceable(h, id, issue, r.tx[i]);
    }
  }

  lemma TraceSurvives(issued: map<Uuid, Hub.Issue>, more: map<Uuid, Hub.Issue>, m: MeshMessage)
    requires IsTraceable(issued, m) && forall id :: id in issued ==> id in more && more[id] == issued[id]
    ensures IsTraceable(more, m)
  {
    if IsCommandFrame(m) && PayloadToken(m.data) != NO_TOKEN {
      var id :| id in issued && TracesTo(issued, id, m);
      assert TracesTo(more, id, m);
    }
  }

  lemma AckKeepsCommands(h: Hub.State, m: MeshMessage, hint: Uuid, now: int)
    requires HubCommands(h)
    ensures var r := Hub.HandleAck(h, m, hint, now);
      && HubCommands(r) && CommandsGrow(h, r) && r.issued == h.issued
      && (forall id :: IsAcked(r.commands, id) && !IsAcked(h.commands, id) ==>
            |m.data| >= 3 && Commands.TokenOf(id) == (m.data[1], m.data[2]))
  {
    var r := Hub.HandleAck(h, m, hint, now);
    if r != h {
      var found := Commands.FindByToken(h.commands, (m.data[1], m.data[2]), hint).value;
      assert r.commands == Commands.MarkAcked(h.commands, found, now) && !IsAcked(h.commands, found);
      assert r.events[..|r.events| - 1] == h.events;
      assert forall id :: IsAcked(r.commands, id) <==> IsAcked(h.commands, id) || id == found;
      forall id ensures AckCount(r.events, id) == if IsAcked(r.commands, id) then 1 else 0 {
        assert AckCount(h.events, id) == if IsAcked(h.commands, id) then 1 else 0;
      }
    }
  }

  // ----- Growth -----

  lemma MessageGrows(h: Hub.State, m: MeshMessage, hints: Hub.Hints, now: int)
    requires HubCommands(h)
    ensures var r := Hub.HandleMessage(h, m, hints, now);
      HubCommands(r) && CommandsGrow(h, r) && r.issued == h.issued
  {
    var r := Hub.HandleMessage(h, m, hints, now);
    if !IsAck(m) {
      QuietMessage(h, m, hints, now);
      QuietKeepsCommands(h, r);
    } else if m.protoVersion == 5 {
      assert r == Hub.HandleAck(h, m, hints.command, now);
      AckKeepsCommands(h, m, hints.command, now);
    }
  }

  lemma HubStepGrows(h: Hub.State, a: Action, now: int)
    requires HubCommands(h) && (a.NodeCommand? ==> a.id !in h.commands)
    requires a.ZoneCommand? || a.CheckOffline? ==> Hub.IsOrder(a.entries, h.nodes.Keys)
    ensures var r := HubStep(h, a, now);
      && HubCommands(r) && CommandsGrow(h, r) && (r.issued != h.issued ==> a.NodeCommand?)
      && forall id :: IsAcked(r.commands, id) <==> IsAcked(h.commands, id)
  {
    var r := HubStep(h, a, now);
    if a.NodeCommand? {
      IssueEffect(h, a.nodeID, a.command, a.colour, a.id, a.hint, now);
      if r != h {
        IssueKeepsCommands(h, a.id, r.issued[a.id], a.nodeID, a.command, now);
      }
    } else {
      QuietStep(h, a, now);
      QuietKeepsCommands(h, r);
    }
  }

  lemma GrowStep(h: Hub.State, e: Input)
    requires HubCommands(h) && Allowed(h, e)
    ensures var r := Step(h, e);
      HubCommands(r) && CommandsGrow(h, r)
  {
    match e
    case Call(a, now) => HubStepGrows(h, a, now);
    case Receive(m, hints, now) => MessageGrows(h, m, hints, now);
    case Take =>
  }

  // ----- Runs of the hub -----

  lemma {:induction false} HubCommandsHold(states: seq<Hub.State>, inputs: seq<Input>, i: nat)
    requires IsHubRun(states, inputs) && i < |states|
    ensures HubCommands(states[i])
  {
    if i > 0 {
      HubCommandsHold(states, inputs, i - 1);
      assert IsHubStep(states, inputs, i - 1);
      GrowStep(states[i - 1], inputs[i - 1]);
    }
  }

  /** One for one, whatever frames arrive: exactly the acknowledged commands have a command_ack event, and each has one. */
  lemma EventsMatchAcks(states: seq<Hub.State>, inputs: seq<Input>, i: nat, id: Uuid)
    requires IsHubRun(states, inputs) && i < |states|
    ensures AckCount(states[i].events, id) == if IsAcked(states[i].commands, id) then 1 else 0
  {
    HubCommandsHold(states, inputs, i);
  }

  lemma AckedStep(h: Hub.State, e: Input, id: Uuid)
    requires HubCommands(h) && Allowed(h, e) && IsAcked(h.commands, id)
    ensures IsAcked(Step(h, e).commands, id)
  {
    GrowStep(h, e);
  }

  /** Whatever frames arrive, no command leaves the acknowledged state. */
  lemma {:induction false} AckedForGood(states: seq<Hub.State>, inputs: seq<Input>, i: nat, j: nat, id: Uuid)
    requires IsHubRun(states, inputs) && i <= j < |states|
    requires IsAcked(states[i].commands, id)
    ensures IsAcked(states[j].commands, id)
  {
    if i < j {
      AckedForGood(states, inputs, i, j - 1, id);
      HubCommandsHold(states, inputs, j - 1);
      assert IsHubStep(states, inputs, j - 1);
      AckedStep(states[j - 1], inputs[j - 1], id);
    }
  }

  // ----- Steps of the system -----

  lemma HubStepKeepsCommandInv(s: System, r: System)
    requires CommandInv(s) && HubCommands(r.hub) && r.sim.log == s.sim.log
    requires CommandsGrow(s.hub, r.hub)
    requires forall i :: 0 <= i < |r.sim.tx| ==> r.sim.tx[i] in s.sim.tx
    requires forall id :: IsAcked(r.hub.commands, id) ==> Reached(r.sim.log, Commands.TokenOf(id))
    ensures CommandInv(r)
  {
    forall d | d in r.sim.log ensures IsTraceable(r.hub.issued, d.frame) {
      TraceSurvives(s.hub.issued, r.hub.issued, d.frame);
    }
    forall i | 0 <= i < |r.sim.tx| && IsAck(r.sim.tx[i])
      ensures Reached(r.sim.log, (r.sim.tx[i].data[1], r.sim.tx[i].data[2]))
    {
      var j :| 0 <= j < |s.sim.tx| && s.sim.tx[j] == r.sim.tx[i];
    }
  }

  lemma DeliverUpKeepsCommandInv(s: System, hints: Hub.Hints)
    requires CommandInv(s) && s.sim.tx != []
    ensures CommandInv(Apply(s, DeliverUp(hints)))
  {
    var m := s.sim.tx[0];
    var r := Apply(s, DeliverUp(hints));
    MessageGrows(s.hub, m, hints, s.now);
    if IsAck(m) && m.protoVersion == 5 {
      assert r.hub == Hub.HandleAck(s.hub, m, hints.command, s.now);
      AckKeepsCommands(s.hub, m, hints.command, s.now);
      assert Reached(s.sim.log, (m.data[1], m.data[2]));
    } else if !IsAck(m) {
      QuietMessage(s.hub, m, hints, s.now);
    }
    HubStepKeepsCommandInv(s, r);
  }

  lemma DeliverDownKeepsCommandInv(s: System, order: seq<Mac>)
    requires CommandInv(s) && Enabled(s, DeliverDown(order))
    ensures CommandInv(Apply(s, DeliverDown(order)))
  {
    var m := s.hub.tx[0];
    var r := Apply(s, DeliverDown(order));
    FrameEffect(s.sim, m, order);
    forall i | 0 <= i < |r.sim.tx| && IsAck(r.sim.tx[i])
      ensures Reached(r.sim.log, (r.sim.tx[i].data[1], r.sim.tx[i].data[2]))
    {
      if i < |s.sim.tx| {
        assert r.sim.tx[i] == s.sim.tx[i];
        ReachedGrows(s.sim.log, r.sim.log, (r.sim.tx[i].data[1], r.sim.tx[i].data[2]));
      } else {
        var k :| k in s.sim.nodes && Sim.Accepts(s.sim.nodes[k], m)
              && r.sim.tx[i] == AckMsg(s.sim.nodes[k].mac, s.sim.nodes[k].relays, PayloadToken(m.data));
        assert Sim.Arrival(m, s.sim.nodes) in r.sim.log;
      }
    }
    forall id | IsAcked(r.hub.commands, id) ensures Reached(r.sim.log, Commands.TokenOf(id)) {
      ReachedGrows(s.sim.log, r.sim.log, Commands.TokenOf(id));
    }
  }

  lemma SimStepKeepsCommandInv(s: System, r: System)
    requires CommandInv(s) && r.hub == s.hub && r.sim.log == s.sim.log && s.sim.tx <= r.sim.tx
    requires forall i :: |s.sim.tx| <= i < |r.sim.tx| ==> !IsAck(r.sim.tx[i])
    ensures CommandInv(r)
  {
    forall i | 0 <= i < |r.sim.tx| && IsAck(r.sim.tx[i])
      ensures Reached(r.sim.log, (r.sim.tx[i].data[1], r.sim.tx[i].data[2]))
    {
      assert r.sim.tx[i] == s.sim.tx[i];
    }
  }

  lemma CommandStep(s: System, a: Action)
    requires CommandInv(s) && Keyed(s.sim.nodes) && Enabled(s, a)
    ensures CommandInv(Apply(s, a))
  {
    if a.DeliverUp? {
      DeliverUpKeepsCommandInv(s, a.hints);
    } else if a.DeliverDown? {
      DeliverDownKeepsCommandInv(s, a.order);
    } else if a.Tick? || a.Spawn? || a.FireMotion? || a.SetOffline? {
      SimTakesNoAcks(s, a);
      SimStepKeepsCommandInv(s, Apply(s, a));
    } else if !a.Wait? {
      HubStepGrows(s.hub, a, s.now);
      HubStepKeepsCommandInv(s, Apply(s, a));
    }
  }

  lemma SimTakesNoAcks(s: System, a: Action)
    requires Keyed(s.sim.nodes) && Enabled(s, a) && (a.Tick? || a.Spawn? || a.FireMotion? || a.SetOffline?)
    ensures var r := Apply(s, a);
      && r.hub == s.hub && r.sim.log == s.sim.log && s.sim.tx <= r.sim.tx
      && forall i :: |s.sim.tx| <= i < |r.sim.tx| ==> !IsAck(r.sim.tx[i])
  {
    if a.Tick? {
      TicksEffect(s.sim, a.first, a.second, s.now);
    }
  }

  // ----- Whole runs -----

  lemma {:induction false} KeyedHolds(states: seq<System>, actions: seq<Action>, i: nat)
    requires IsHistory(states, actions) && i < |states|
    ensures Keyed(states[i].sim.nodes)
  {
    if i > 0 {
      KeyedHolds(states, actions, i - 1);
      assert IsStep(states, actions, i - 1);
      KeyedStep(states[i - 1], actions[i - 1]);
    }
  }

  lemma CommandsStart(s: System)
    requires Start(s)
    ensures CommandInv(s)
  {
  }

  lemma {:induction false} CommandsHold(states: seq<System>, actions: seq<Action>, i: nat)
    requires IsHistory(states, actions) && i < |states|
    ensures CommandInv(states[i]) && Keyed(states[i].sim.nodes)
  {
    KeyedHolds(states, actions, i);
    if i == 0 {
      CommandsStart(states[0]);
    } else {
      CommandsHold(states, actions, i - 1);
      assert IsStep(states, actions, i - 1);
      CommandStep(states[i - 1], actions[i - 1]);
    }
  }

  lemma KeyedStep(s: System, a: Action)
    requires Keyed(s.sim.nodes) && Enabled(s, a)
    ensures Keyed(Apply(s, a).sim.nodes)
  {
    if a.DeliverDown? {
      FrameEffect(s.sim, s.hub.tx[0], a.order);
      assert forall k | k in s.sim.nodes :: FrameOnNode(s.sim.nodes[k], s.hub.tx[0], k, Apply(s, a).sim.nodes[k]);
    } else if a.Tick? {
      TicksEffect(s.sim, a.first, a.second, s.now);
    }
  }

  lemma EventsMatchAcksInHistory(states: seq<System>, actions: seq<Action>, i: nat, id: Uuid)
    requires IsHistory(states, actions) && i < |states|
    ensures AckCount(states[i].hub.events, id) == if IsAcked(states[i].hub.commands, id) then 1 else 0
  {
    HistoryIsHubRun(states, actions);
    EventsMatchAcks(HubStates(states), Inputs(states, actions), i, id);
  }

  lemma AckedForGoodInHistory(states: seq<System>, actions: seq<Action>, i: nat, j: nat, id: Uuid)
    requires IsHistory(states, actions) && i <= j < |states|
    requires IsAcked(states[i].hub.commands, id)
    ensures IsAcked(states[j].hub.commands, id)
  {
    HistoryIsHubRun(states, actions);
    AckedForGood(HubStates(states), Inputs(states, actions), i, j, id);
  }

  /** Its own frame reached a node that was then enrolled, powered, and of the adapter type it was issued for. */
  ghost predicate CarriedOut(s: System, id: Uuid)
    requires id in s.hub.issued
  {
    var issue := s.hub.issued[id];
    exists d, k :: d in s.sim.log && k in d.nodes
      && d.frame == NodeDataMsg(issue.adapterType, issue.payload)
      && d.nodes[k].enrolled && !d.nodes[k].offline && d.nodes[k].adapterType == issue.adapterType
  }

  lemma ReachedMeansCarriedOut(s: System, id: Uuid)
    requires CommandInv(s) && IsUnambiguous(s.hub, id)
    requires Reached(s.sim.log, Commands.TokenOf(id))
    ensures CarriedOut(s, id)
  {
    var d, k :| d in s.sim.log && k in d.nodes && IsCommandFrame(d.frame)
             && PayloadToken(d.frame.data) == Commands.TokenOf(id) && Sim.Accepts(d.nodes[k], d.frame);
    assert IsTraceable(s.hub.issued, d.frame);
    var other :| other in s.hub.issued && TracesTo(s.hub.issued, other, d.frame);
    assert other == id;
  }

  /** A command whose token is not (0,0) and is shared with no other command issued so far. */
  ghost predicate IsUnambiguous(h: Hub.State, id: Uuid) {
    && id in h.issued && Commands.TokenOf(id) != NO_TOKEN
    && forall other :: other in h.issued && Commands.TokenOf(other) == Commands.TokenOf(id) ==> other == id
  }

  /** Correlation end to end: in every run, a command whose token is not (0,0) and is shared with no other command is
      acknowledged only if that very command reached a node able to carry it out. */
  lemma AckedMeansCarriedOut(states: seq<System>, actions: seq<Action>, i: nat, id: Uuid)
    requires IsHistory(states, actions) && i < |states|
    requires IsUnambiguous(states[i].hub, id) && IsAcked(states[i].hub.commands, id)
    ensures CarriedOut(states[i], id)
  {
    CommandsHold(states, actions, i);
    ReachedMeansCarriedOut(states[i], id);
  }

  lemma GrowInSystem(s: System, a: Action)
    requires HubCommands(s.hub) && Enabled(s, a)
    ensures CommandsGrow(s.hub, Apply(s, a).hub)
  {
    InputIsStep(s, a);
    GrowStep(s.hub, InputOf(s, a));
  }

  // ----- The converse: what was carried out is acknowledged -----

  ghost predicate AckOnWay(q: seq<MeshMessage>, token: Token) {
    exists i :: 0 <= i < |q| && IsAck(q[i]) && q[i].protoVersion == 5 && (q[i].data[1], q[i].data[2]) == token
  }

  /** If the command's frame reached an accepting node, it is acknowledged or its acknowledgement is in flight. */
  ghost predicate Answered(s: System, id: Uuid) {
    Reached(s.sim.log, Commands.TokenOf(id)) ==> IsAcked(s.hub.commands, id) || AckOnWay(s.sim.tx, Commands.TokenOf(id))
  }

  lemma AckOnWayGrows(q: seq<MeshMessage>, r: seq<MeshMessage>, token: Token)
    requires AckOnWay(q, token) && q <= r
    ensures AckOnWay(r, token)
  {
    var i :| 0 <= i < |q| && IsAck(q[i]) && q[i].protoVersion == 5 && (q[i].data[1], q[i].data[2]) == token;
    assert r[i] == q[i];
  }

  /** Every accepting node writes its acknowledgement. */
  lemma {:induction false} AcceptedIsAcked(s: Sim.State, order: seq<Mac>, m: MeshMessage, k: Mac)
    requires |m.data| >= MAX_DATA && (forall j | j in order :: j in s.nodes)
    requires k in order && Sim.Accepts(s.nodes[k], m)
    ensures AckOnWay(Sim.Acks(s, order, m).tx, PayloadToken(m.data))
  {
    var init, last := order[..|order| - 1], order[|order| - 1];
    assert forall j | j in init :: j in order;
    assert k in init || k == last;
    AcksEffect(s, init, m);
    var r := Sim.Acks(s, init, m);
    var q := Sim.Acks(s, order, m);
    assert q == Sim.AckOne(r, last, m);
    if k in init {
      AcceptedIsAcked(s, init, m, k);
      AckOnWayGrows(r.tx, q.tx, PayloadToken(m.data));
    } else {
      assert Sim.Accepts(r.nodes[k], m);
      var ack := AckMsg(r.nodes[k].mac, r.nodes[k].relays, PayloadToken(m.data));
      assert q.tx[|q.tx| - 1] == ack && IsAck(ack);
    }
  }

  /** Reading an acknowledgement of an unambiguous command acknowledges that command. */
  lemma AckResolves(h: Hub.State, m: MeshMessage, hint: Uuid, now: int, id: Uuid)
    requires HubCommands(h) && IsUnambiguous(h, id) && |m.data| >= 3 && (m.data[1], m.data[2]) == Commands.TokenOf(id)
    ensures IsAcked(Hub.HandleAck(h, m, hint, now).commands, id)
  {
    if !IsAcked(h.commands, id) {
      assert Commands.Matches(h.commands, id, Commands.TokenOf(id));
    }
  }

  lemma DeliverUpKeepsAnswered(s: System, hints: Hub.Hints, id: Uuid)
    requires CommandInv(s) && s.sim.tx != [] && IsUnambiguous(s.hub, id) && Answered(s, id)
    ensures Answered(Apply(s, DeliverUp(hints)), id)
  {
    var m, token := s.sim.tx[0], Commands.TokenOf(id);
    var r := Apply(s, DeliverUp(hints));
    if IsAcked(s.hub.commands, id) {
      MessageGrows(s.hub, m, hints, s.now);
    } else if AckOnWay(s.sim.tx, token) {
      var i :| 0 <= i < |s.sim.tx| && IsAck(s.sim.tx[i]) && s.sim.tx[i].protoVersion == 5
             && (s.sim.tx[i].data[1], s.sim.tx[i].data[2]) == token;
      if i == 0 {
        assert r.hub == Hub.HandleAck(s.hub, m, hints.command, s.now);
        AckResolves(s.hub, m, hints.command, s.now, id);
      } else {
        assert r.sim.tx[i - 1] == s.sim.tx[i];
      }
    }
  }

  /** A frame that newly reaches a node able to carry it out is acknowledged. */
  lemma NewlyReachedIsAcked(s: Sim.State, order: seq<Mac>, m: MeshMessage, token: Token)
    requires Hub.IsOrder(order, s.nodes.Keys)
    requires !Reached(s.log, token) && Reached(Sim.HandleFrame(s, m, order).log, token)
    ensures AckOnWay(Sim.HandleFrame(s, m, order).tx, token)
  {
    var r := Sim.HandleFrame(s, m, order);
    FrameEffect(s, m, order);
    var d, k :| d in r.log && k in d.nodes && IsCommandFrame(d.frame)
             && PayloadToken(d.frame.data) == token && Sim.Accepts(d.nodes[k], d.frame);
    assert d !in s.log && d == Sim.Arrival(m, s.nodes);
    AcceptedIsAcked(s.(log := r.log), order, m, k);
  }

  lemma DeliverDownKeepsAnswered(s: System, order: seq<Mac>, id: Uuid)
    requires Enabled(s, DeliverDown(order)) && Answered(s, id)
    ensures Answered(Apply(s, DeliverDown(order)), id)
  {
    var m, token := s.hub.tx[0], Commands.TokenOf(id);
    var r := Apply(s, DeliverDown(order));
    FrameEffect(s.sim, m, order);
    if !Reached(s.sim.log, token) {
      if Reached(r.sim.log, token) {
        NewlyReachedIsAcked(s.sim, order, m, token);
      }
    } else if AckOnWay(s.sim.tx, token) {
      AckOnWayGrows(s.sim.tx, r.sim.tx, token);
    }
  }

  lemma SimLinksGrow(s: System, a: Action)
    requires Keyed(s.sim.nodes) && Enabled(s, a) && !a.DeliverUp? && !a.DeliverDown?
    ensures Apply(s, a).sim.log == s.sim.log && s.sim.tx <= Apply(s, a).sim.tx
  {
    if a.Tick? {
      TicksEffect(s.sim, a.first, a.second, s.now);
    }
  }

  /** A step that hands no frame over. */
  lemma OtherStepKeepsAnswered(s: System, r: System, id: Uuid)
    requires Answered(s, id) && CommandsGrow(s.hub, r.hub) && r.sim.log == s.sim.log && s.sim.tx <= r.sim.tx
    ensures Answered(r, id)
  {
    if AckOnWay(s.sim.tx, Commands.TokenOf(id)) {
      AckOnWayGrows(s.sim.tx, r.sim.tx, Commands.TokenOf(id));
    }
  }

  lemma AnsweredStep(s: System, a: Action, id: Uuid)
    requires CommandInv(s) && Keyed(s.sim.nodes) && Enabled(s, a) && IsUnambiguous(s.hub, id) && Answered(s, id)
    ensures Answered(Apply(s, a), id)
  {
    if a.DeliverUp? {
      DeliverUpKeepsAnswered(s, a.hints, id);
    } else if a.DeliverDown? {
      DeliverDownKeepsAnswered(s, a.order, id);
    } else {
      GrowInSystem(s, a);
      SimLinksGrow(s, a);
      OtherStepKeepsAnswered(s, Apply(s, a), id);
    }
  }

  lemma ReachedNeedsIssue(s: System, token: Token) returns (id: Uuid)
    requires CommandInv(s) && Reached(s.sim.log, token) && token != NO_TOKEN
    ensures id in s.hub.issued && Commands.TokenOf(id) == token
  {
    var d, k :| d in s.sim.log && k in d.nodes && IsCommandFrame(d.frame)
             && PayloadToken(d.frame.data) == token && Sim.Accepts(d.nodes[k], d.frame);
    assert IsTraceable(s.hub.issued, d.frame);
    id :| id in s.hub.issued && TracesTo(s.hub.issued, id, d.frame);
  }

  /** When an unambiguous command is issued, nothing with its token has arrived anywhere yet. */
  lemma FirstIssueIsUnreached(s: System, r: System, id: Uuid)
    requires CommandInv(s) && CommandsGrow(s.hub, r.hub) && r.sim.log == s.sim.log
    requires id !in s.hub.issued && IsUnambiguous(r.hub, id)
    ensures !Reached(r.sim.log, Commands.TokenOf(id))
  {
    if Reached(r.sim.log, Commands.TokenOf(id)) {
      var other := ReachedNeedsIssue(s, Commands.TokenOf(id));
    }
  }

  /** As long as the command is unambiguous, it is answered if it was reached. */
  ghost predicate AnswerInv(s: System, id: Uuid) {
    IsUnambiguous(s.hub, id) ==> Answered(s, id)
  }

  lemma AnswersStart(s: System, id: Uuid)
    requires Start(s)
    ensures AnswerInv(s, id)
  {
  }

  lemma AnswersGrow(s: System, a: Action, id: Uuid)
    requires CommandInv(s) && Keyed(s.sim.nodes) && Enabled(s, a) && AnswerInv(s, id)
    ensures AnswerInv(Apply(s, a), id)
  {
    GrowInSystem(s, a);
    if IsUnambiguous(Apply(s, a).hub, id) {
      if id in s.hub.issued {
        AnsweredStep(s, a, id);
      } else {
        if !a.DeliverUp? && !a.DeliverDown? {
          SimLinksGrow(s, a);
        }
        FirstIssueIsUnreached(s, Apply(s, a), id);
      }
    }
  }

  lemma {:induction false} AnswersHold(states: seq<System>, actions: seq<Action>, i: nat, id: Uuid)
    requires IsHistory(states, actions) && i < |states|
    ensures AnswerInv(states[i], id)
  {
    if i == 0 {
      AnswersStart(states[0], id);
    } else {
      AnswersHold(states, actions, i - 1, id);
      CommandsHold(states, actions, i - 1);
      assert IsStep(states, actions, i - 1);
      AnswersGrow(states[i - 1], actions[i - 1], id);
    }
  }

  lemma CarriedOutMeansReached(s: System, id: Uuid)
    requires CommandInv(s) && id in s.hub.issued && CarriedOut(s, id)
    ensures Reached(s.sim.log, Commands.TokenOf(id))
  {
    var issue := s.hub.issued[id];
    var d, k :| d in s.sim.log && k in d.nodes && d.frame == NodeDataMsg(issue.adapterType, issue.payload)
      && d.nodes[k].enrolled && !d.nodes[k].offline && d.nodes[k].adapterType == issue.adapterType;
    assert Padded(issue.payload) == issue.payload;
    assert Sim.Accepts(d.nodes[k], d.frame);
  }

  /** And back: in every state of every run in which nothing is on its way to the hub, an unambiguous command is
      acknowledged exactly when its own frame has reached a node able to carry it out. */
  lemma AckedIffCarriedOut(states: seq<System>, actions: seq<Action>, i: nat, id: Uuid)
    requires IsHistory(states, actions) && i < |states|
    requires IsUnambiguous(states[i].hub, id) && states[i].sim.tx == []
    ensures IsAcked(states[i].hub.commands, id) <==> CarriedOut(states[i], id)
  {
    CommandsHold(states, actions, i);
    if IsAcked(states[i].hub.commands, id) {
      AckedMeansCarriedOut(states, actions, i, id);
    }
    if CarriedOut(states[i], id) {
      CarriedOutMeansReached(states[i], id);
      AnswersHold(states, actions, i, id);
    }
  }

  /** An acknowledgement is certain to resolve to a command, whatever the map order, exactly when that command is
      pending and no other pending command has the same token. */
  lemma TokenResolvesOnlyIfUnshared(t: Commands.Table, id: Uuid)
    ensures (forall hint: Uuid :: Commands.FindByToken(t, Commands.TokenOf(id), hint) == Some(id))
        <==> Commands.Matches(t, id, Commands.TokenOf(id))
             && forall other :: Commands.Matches(t, other, Commands.TokenOf(id)) ==> other == id
  {
    var token := Commands.TokenOf(id);
    if forall hint: Uuid :: Commands.FindByToken(t, token, hint) == Some(id) {
      assert Commands.FindByToken(t, token, id) == Some(id);
      forall other | Commands.Matches(t, other, token) ensures other == id {
        assert Commands.FindByToken(t, token, other) == Some(other);
      }
    }
  }
}
