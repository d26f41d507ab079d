/** Online and offline over whole runs: the two events alternate for every node, and silence is noticed in time. */
module PresenceProofs {
  import opened Bytes
  import opened Clock
  import opened Wire
  import opened HubRuns
  import opened Protocol
  import Auth
  import Commands
  import Nodes
  import Hub
  import HubEffects

  predicate IsPresence(e: Hub.Event, mac: Bytes) {
    (e.NodeOnline? || e.NodeOffline?) && e.mac == mac
  }

  /** What the last presence event about `mac` says; before the first one a node is offline. */
  function LastSaid(events: seq<Hub.Event>, mac: Bytes): bool {
    if events == [] then false
    else
      var e := events[|events| - 1];
      if IsPresence(e, mac) then e.NodeOnline? else LastSaid(events[..|events| - 1], mac)
  }

  /** A node_online only follows offline, a node_offline only online: they alternate, starting with online. */
  ghost predicate Alternates(events: seq<Hub.Event>) {
    forall i :: 0 <= i < |events| ==>
      && (events[i].NodeOnline? ==> !LastSaid(events[..i], events[i].mac))
      && (events[i].NodeOffline? ==> LastSaid(events[..i], events[i].mac))
  }

  ghost predicate PresenceInv(h: Hub.State) {
    Alternates(h.events) && forall mac :: Hub.IsOnline(h, mac) == LastSaid(h.events, mac)
  }

  // ----- Steps -----

  lemma AppendEvent(h: Hub.State, r: Hub.State, e: Hub.Event)
    requires PresenceInv(h) && r.events == h.events + [e]
    requires e.NodeOnline? ==> !Hub.IsOnline(h, e.mac)
    requires e.NodeOffline? ==> Hub.IsOnline(h, e.mac)
    requires forall mac :: Hub.IsOnline(r, mac) == if IsPresence(e, mac) then e.NodeOnline? else Hub.IsOnline(h, mac)
    ensures PresenceInv(r)
  {
    assert r.events[..|h.events|] == h.events;
    forall i | 0 <= i < |r.events|
      ensures (r.events[i].NodeOnline? ==> !LastSaid(r.events[..i], r.events[i].mac))
           && (r.events[i].NodeOffline? ==> LastSaid(r.events[..i], r.events[i].mac))
    {
      if i < |h.events| {
        assert r.events[..i] == h.events[..i];
      }
    }
  }

  lemma CheckOnePresence(h: Hub.State, k: Bytes, now: int)
    requires PresenceInv(h) && k in h.nodes
    ensures PresenceInv(Hub.CheckOne(h, k, now))
  {
    var n := h.nodes[k];
    if Overdue(now, n.lastSeen, h.cfg.healthTimeout) && Hub.IsOnline(h, k) {
      AppendEvent(h, Hub.CheckOne(h, k, now), Hub.NodeOffline(k, n.nodeID, n.name, n.lastSeen, now));
    }
  }

  lemma {:induction false} CheckOfflinePresence(h: Hub.State, order: seq<Bytes>, now: int)
    requires PresenceInv(h) && forall k | k in order :: k in h.nodes
    ensures PresenceInv(Hub.CheckOffline(h, order, now))
  {
    if order != [] {
      var init := order[..|order| - 1];
      assert forall k | k in init :: k in order;
      CheckOfflinePresence(h, init, now);
      CheckOnePresence(Hub.CheckOffline(h, init, now), order[|order| - 1], now);
    }
  }

  lemma PublishHealthPresence(h: Hub.State, n: Nodes.NodeInfo, now: int)
    requires PresenceInv(h)
    ensures PresenceInv(Hub.PublishHealth(h, n, now))
  {
    var e := Hub.Health(n.mac, n.nodeID, n.name, !Overdue(now, n.lastSeen, h.cfg.healthTimeout), n.uptime, n.hopCount);
    var h1 := Hub.Publish(h, e);
    AppendEvent(h, h1, e);
    if !Hub.IsOnline(h, n.mac) {
      AppendEvent(h1, Hub.PublishHealth(h, n, now), Hub.NodeOnline(n.mac, n.nodeID, n.name));
    }
  }

  /** A step that leaves the online flags alone and adds at most one event, not a presence event. */
  ghost predicate Unobserved(h: Hub.State, r: Hub.State) {
    && r.online == h.online
    && (r.events == h.events
        || exists e: Hub.Event :: r.events == h.events + [e] && !e.NodeOnline? && !e.NodeOffline?)
  }

  lemma UnobservedPresence(h: Hub.State, r: Hub.State)
    requires PresenceInv(h) && Unobserved(h, r)
    ensures PresenceInv(r)
  {
    if r.events != h.events {
      var e: Hub.Event :| r.events == h.events + [e] && !e.NodeOnline? && !e.NodeOffline?;
      AppendEvent(h, r, e);
    }
  }

  lemma EnrollUnobserved(h: Hub.State, mac: Mac, p: Hub.ApprovalParams, hint: Bytes, now: int)
    requires mac in h.auth
    ensures Unobserved(h, Hub.Enroll(h, mac, p, hint, now))
  {
    Hub.EnrollEffect(h, mac, p, hint, now);
    var e := Hub.EnrolledEvent(Hub.Install(h.nodes, mac, Hub.Decide(h.nodes, mac, p, hint)), mac, p);
    assert Hub.Enroll(h, mac, p, hint, now).events == h.events + [e];
  }

  lemma UnobservedStep(h: Hub.State, a: Action, now: int)
    requires a.ZoneCommand? ==> Hub.IsOrder(a.entries, h.nodes.Keys)
    requires !a.CheckOffline?
    ensures Unobserved(h, HubStep(h, a, now))
  {
    if a.AdminApprove? && a.mac in h.auth {
      var h1 := h.(trust := h.trust + [Hub.AdminApproved(a.mac, h.auth[a.mac].publicKey)]);
      EnrollUnobserved(h1, a.mac, a.params, a.hint, now);
    }
  }

  lemma EnrollmentUnobserved(h: Hub.State, m: MeshMessage, hint: Bytes, now: int)
    ensures Unobserved(h, Hub.HandleEnrollment(h, m, hint, now))
  {
    if Hub.IsRequest(m) {
      var mac: Mac, key: Key := m.origin[..6], m.publicKey;
      var h1 := h.(auth := Auth.AddPending(h.auth, mac, key, now));
      EnrollUnobserved(h1, mac, Hub.ResendParams(h1.nodes, mac), hint, now);
    }
  }

  predicate IsHealth(m: MeshMessage) {
    m.messageType == MSG_ADAPTER_DATA && ParseHealthReport(m).Some?
  }

  lemma AckUnobserved(h: Hub.State, m: MeshMessage, hint: Uuid, now: int)
    ensures Unobserved(h, Hub.HandleAck(h, m, hint, now))
  {
    if |m.data| >= 3 {
      var found := Commands.FindByToken(h.commands, (m.data[1], m.data[2]), hint);
      if found.Some? {
        assert Hub.HandleAck(h, m, hint, now).events
            == h.events + [Hub.CommandAcked(found.value, h.commands[found.value].nodeID)];
      }
    }
  }

  lemma MessageUnobserved(h: Hub.State, m: MeshMessage, hints: Hub.Hints, now: int)
    requires !IsHealth(m)
    ensures Unobserved(h, Hub.HandleMessage(h, m, hints, now))
  {
    if m.messageType == MSG_ENROLLMENT {
      EnrollmentUnobserved(h, m, hints.holder, now);
    } else if m.messageType == MSG_ADAPTER_DATA && m.dataType == TYPE_SERIAL {
      AckUnobserved(h, m, hints.command, now);
    }
  }

  lemma MessagePresence(h: Hub.State, m: MeshMessage, hints: Hub.Hints, now: int)
    requires PresenceInv(h)
    ensures PresenceInv(Hub.HandleMessage(h, m, hints, now))
  {
    if IsHealth(m) {
      var r := ParseHealthReport(m).value;
      var t := Nodes.Update(h.nodes, r.mac, r.adapterType, r.uptime, r.hopCount, now);
      PublishHealthPresence(h.(nodes := t), t[r.mac], now);
    } else {
      MessageUnobserved(h, m, hints, now);
      UnobservedPresence(h, Hub.HandleMessage(h, m, hints, now));
    }
  }

  lemma PresenceStep(h: Hub.State, e: Input)
    requires PresenceInv(h) && Allowed(h, e)
    ensures PresenceInv(Step(h, e))
  {
    match e
    case Receive(m, hints, now) => MessagePresence(h, m, hints, now);
    case Take =>
    case Call(a, now) =>
      if a.CheckOffline? {
        CheckOfflinePresence(h, a.entries, now);
      } else {
        UnobservedStep(h, a, now);
        UnobservedPresence(h, Step(h, e));
      }
  }

  // ----- Alternation over whole runs -----

  /** Whatever frames arrive, the presence events alternate for every node, starting with online, and the flags the hub
      keeps say what the last of them said. */
  lemma {:induction false} PresenceAlternates(states: seq<Hub.State>, inputs: seq<Input>, i: nat)
    requires IsHubRun(states, inputs) && i < |states|
    ensures Alternates(states[i].events)
    ensures forall mac :: Hub.IsOnline(states[i], mac) == LastSaid(states[i].events, mac)
  {
    if i > 0 {
      PresenceAlternates(states, inputs, i - 1);
      assert IsHubStep(states, inputs, i - 1);
      PresenceStep(states[i - 1], inputs[i - 1]);
    }
  }

  lemma PresenceAlternatesInHistory(states: seq<System>, actions: seq<Action>, i: nat)
    requires IsHistory(states, actions) && i < |states|
    ensures Alternates(states[i].hub.events)
    ensures forall mac :: Hub.IsOnline(states[i].hub, mac) == LastSaid(states[i].hub.events, mac)
  {
    HistoryIsHubRun(states, actions);
    PresenceAlternates(HubStates(states), Inputs(states, actions), i);
  }

  // ----- Timely detection -----

  /** How many times a node was reported offline. */
  function OfflineCount(events: seq<Hub.Event>, mac: Bytes): nat {
    if events == [] then 0
    else
      var e := events[|events| - 1];
      OfflineCount(events[..|events| - 1], mac) + (if e.NodeOffline? && e.mac == mac then 1 else 0)
  }

  /** One entry's turn in a check, seen by the node at `mac`. */
  lemma CheckOneFinds(h: Hub.State, k: Bytes, now: int, mac: Bytes)
    requires k in h.nodes && mac in h.nodes
    ensures var r := Hub.CheckOne(h, k, now);
      var n := h.nodes[mac];
      var found := k == mac && Hub.IsOnline(h, mac) && Overdue(now, n.lastSeen, h.cfg.healthTimeout);
      && (Hub.IsOnline(r, mac) <==> Hub.IsOnline(h, mac) && !found)
      && h.events <= r.events
      && OfflineCount(r.events, mac) == OfflineCount(h.events, mac) + (if found then 1 else 0)
      && (found ==> Hub.NodeOffline(mac, n.nodeID, n.name, n.lastSeen, now) in r.events)
  {
    var r := Hub.CheckOne(h, k, now);
    if r.events != h.events {
      assert r.events[..|r.events| - 1] == h.events;
    }
  }

  lemma InPrefix(events: seq<Hub.Event>, more: seq<Hub.Event>, e: Hub.Event)
    requires events <= more && e in events
    ensures e in more
  {
  }

  /** A check at `now` finds exactly the overdue nodes offline, and for each that was online it publishes one node_offline,
      which says when it was last seen, and for nobody else any. */
  lemma {:induction false} CheckFindsOverdue(h: Hub.State, order: seq<Bytes>, now: int, mac: Bytes)
    requires (forall k | k in order :: k in h.nodes) && mac in h.nodes
    ensures var r := Hub.CheckOffline(h, order, now);
      var n := h.nodes[mac];
      var found := mac in order && Hub.IsOnline(h, mac) && Overdue(now, n.lastSeen, h.cfg.healthTimeout);
      && (Hub.IsOnline(r, mac) <==> Hub.IsOnline(h, mac) && !found)
      && h.events <= r.events
      && OfflineCount(r.events, mac) == OfflineCount(h.events, mac) + (if found then 1 else 0)
      && (found ==> Hub.NodeOffline(mac, n.nodeID, n.name, n.lastSeen, now) in r.events)
  {
    if order != [] {
      var init, k := order[..|order| - 1], order[|order| - 1];
      assert forall k | k in init :: k in order;
      assert forall j :: j in order <==> j in init || j == k;
      CheckFindsOverdue(h, init, now, mac);
      var q, n := Hub.CheckOffline(h, init, now), h.nodes[mac];
      var r := Hub.CheckOffline(h, order, now);
      assert r == Hub.CheckOne(q, k, now);
      CheckOneFinds(q, k, now, mac);
      var e := Hub.NodeOffline(mac, n.nodeID, n.name, n.lastSeen, now);
      if e in q.events {
        InPrefix(q.events, r.events, e);
      }
    }
  }

  /** The node stays in the registry and has not reported since time `l`, and the last check is at most `period` ago. */
  ghost predicate Waiting(s: Moment, mac: Bytes, l: int, period: int) {
    && mac in s.hub.nodes && s.hub.nodes[mac].lastSeen == At(l)
    && s.now - s.lastCheck <= period
  }

  /** Only a check takes a node offline. */
  lemma OnlineStays(h: Hub.State, e: Input, mac: Bytes)
    requires Allowed(h, e) && !IsCheck(e) && Hub.IsOnline(h, mac)
    ensures Hub.IsOnline(Step(h, e), mac)
  {
    match e
    case Receive(m, hints, now) =>
      if !IsHealth(m) {
        MessageUnobserved(h, m, hints, now);
      }
    case Call(a, now) => UnobservedStep(h, a, now);
    case Take =>
  }

  /** Step `x` of the run is the check that reports the node offline, later than the timeout and no later than one
      check period after it. */
  ghost predicate ReportedAt(ms: seq<Moment>, inputs: seq<Input>, x: nat, mac: Bytes, l: int, limit: int, period: int)
    requires x < |inputs| < |ms|
  {
    && IsCheck(inputs[x]) && l + limit < ms[x].now <= l + limit + period
    && exists nodeID, name :: Hub.NodeOffline(mac, nodeID, name, At(l), ms[x].now) in ms[x + 1].hub.events
  }

  ghost predicate NoticedInTime(ms: seq<Moment>, inputs: seq<Input>, i: nat, j: nat, mac: Bytes, l: int, limit: int, period: int)
    requires i <= j < |ms| == |inputs| + 1
  {
    if Hub.IsOnline(ms[j].hub, mac) then ms[j].lastCheck <= l + limit
    else
      && l + limit < ms[j].now
      && exists x :: i <= x < j && ReportedAt(ms, inputs, x, mac, l, limit, period)
  }

  lemma CallConfig(h: Hub.State, a: Action, now: int)
    requires HubEnabled(h, a)
    ensures HubStep(h, a, now).cfg == h.cfg
  {
    if a.AdminApprove? && a.mac in h.auth {
      var h1 := h.(trust := h.trust + [Hub.AdminApproved(a.mac, h.auth[a.mac].publicKey)]);
      Hub.EnrollEffect(h1, a.mac, a.params, a.hint, now);
    }
  }

  lemma MessageConfig(h: Hub.State, m: MeshMessage, hints: Hub.Hints, now: int)
    ensures Hub.HandleMessage(h, m, hints, now).cfg == h.cfg
  {
    if m.messageType != MSG_ENROLLMENT {
      HubEffects.RoutineMessage(h, m, hints, now);
    } else if Hub.IsRequest(m) {
      var mac: Mac, key: Key := m.origin[..6], m.publicKey;
      var h1 := h.(auth := Auth.AddPending(h.auth, mac, key, now));
      Hub.EnrollEffect(h1, mac, Hub.ResendParams(h1.nodes, mac), hints.holder, now);
    }
  }

  lemma ConfigStays(h: Hub.State, e: Input)
    requires Allowed(h, e)
    ensures Step(h, e).cfg == h.cfg
  {
    match e
    case Call(a, now) => CallConfig(h, a, now);
    case Receive(m, hints, now) => MessageConfig(h, m, hints, now);
    case Take =>
  }

  lemma NoticeStep(s: Moment, e: Input, r: Moment, mac: Bytes, l: int, period: int)
    requires Follows(s, e, r) && Waiting(s, mac, l, period) && Hub.IsOnline(s.hub, mac)
    requires s.lastCheck <= l + s.hub.cfg.healthTimeout
    ensures if Hub.IsOnline(r.hub, mac) then r.lastCheck <= l + s.hub.cfg.healthTimeout
      else IsCheck(e) && l + s.hub.cfg.healthTimeout < s.now <= l + s.hub.cfg.healthTimeout + period
           && exists nodeID, name :: Hub.NodeOffline(mac, nodeID, name, At(l), s.now) in r.hub.events
  {
    if IsCheck(e) {
      CheckFindsOverdue(s.hub, e.a.entries, s.now, mac);
      var n := s.hub.nodes[mac];
      assert mac in e.a.entries;
      assert !Hub.IsOnline(r.hub, mac) ==> Hub.NodeOffline(mac, n.nodeID, n.name, At(l), s.now) in r.hub.events;
    } else {
      OnlineStays(s.hub, e, mac);
    }
  }

  /** Coming back online takes a report, which stamps the entry with the time it arrives. */
  lemma ComingBackStamps(h: Hub.State, e: Input, mac: Bytes)
    requires Allowed(h, e) && !Hub.IsOnline(h, mac) && Hub.IsOnline(Step(h, e), mac)
    requires Nodes.Keyed(h.nodes)
    ensures e.Receive? && mac in Step(h, e).nodes && Step(h, e).nodes[mac].lastSeen == At(e.now)
  {
    match e
    case Receive(m, hints, now) =>
      if !IsHealth(m) {
        MessageUnobserved(h, m, hints, now);
      } else {
        assert Step(h, e) == if m.protoVersion == 5 then Hub.HandleHealth(h, m, now) else h;
      }
    case Call(a, now) =>
      if a.CheckOffline? {
        CheckTurnsNoneOn(h, a.entries, now, mac);
      } else {
        UnobservedStep(h, a, now);
      }
    case Take =>
  }

  lemma {:induction false} CheckTurnsNoneOn(h: Hub.State, order: seq<Bytes>, now: int, mac: Bytes)
    requires (forall k | k in order :: k in h.nodes) && !Hub.IsOnline(h, mac)
    ensures !Hub.IsOnline(Hub.CheckOffline(h, order, now), mac)
  {
    if order != [] {
      var init := order[..|order| - 1];
      assert forall k | k in init :: k in order;
      CheckTurnsNoneOn(h, init, now, mac);
    }
  }

  lemma EntriesAreKeyed(ms: seq<Moment>, inputs: seq<Input>, i: nat)
    requires IsClockedRun(ms, inputs) && i < |ms|
    ensures Nodes.Keyed(ms[i].hub.nodes)
  {
    ClockedIsHubRun(ms, inputs);
    TableStaysGood(Hubs(ms), inputs, i);
  }

  /** A node offline since after its last report stays offline while it is silent. */
  lemma OfflineStays(s: Moment, e: Input, r: Moment, mac: Bytes, l: int, period: int)
    requires Follows(s, e, r) && !Hub.IsOnline(s.hub, mac) && l < s.now && Nodes.Keyed(s.hub.nodes)
    requires Waiting(r, mac, l, period)
    ensures !Hub.IsOnline(r.hub, mac)
  {
    if Hub.IsOnline(r.hub, mac) {
      ComingBackStamps(s.hub, e, mac);
    }
  }

  lemma StillNoticed(ms: seq<Moment>, inputs: seq<Input>, i: nat, j: nat, mac: Bytes, l: int, limit: int, period: int)
    requires i < j < |ms| == |inputs| + 1
    requires NoticedInTime(ms, inputs, i, j - 1, mac, l, limit, period)
    requires ms[j - 1].now <= ms[j].now
    requires if Hub.IsOnline(ms[j].hub, mac) then Hub.IsOnline(ms[j - 1].hub, mac) && ms[j].lastCheck <= l + limit
             else Hub.IsOnline(ms[j - 1].hub, mac) ==> ReportedAt(ms, inputs, j - 1, mac, l, limit, period)
    ensures NoticedInTime(ms, inputs, i, j, mac, l, limit, period)
  {
  }

  /** One step of the wait, seen from the step alone. */
  lemma NoticeGoesOn(ms: seq<Moment>, inputs: seq<Input>, i: nat, j: nat, mac: Bytes, l: int, limit: int, period: int)
    requires i < j < |ms| == |inputs| + 1 && IsClockStep(ms, inputs, j - 1)
    requires Waiting(ms[j - 1], mac, l, period) && Waiting(ms[j], mac, l, period)
    requires Nodes.Keyed(ms[j - 1].hub.nodes) && ms[j - 1].hub.cfg.healthTimeout == limit >= 0
    requires NoticedInTime(ms, inputs, i, j - 1, mac, l, limit, period)
    ensures NoticedInTime(ms, inputs, i, j, mac, l, limit, period)
  {
    var s, e, r := ms[j - 1], inputs[j - 1], ms[j];
    if Hub.IsOnline(s.hub, mac) {
      NoticeStep(s, e, r, mac, l, period);
    } else {
      OfflineStays(s, e, r, mac, l, period);
    }
    StillNoticed(ms, inputs, i, j, mac, l, limit, period);
  }

  lemma {:induction false} ConfigIsFixed(ms: seq<Moment>, inputs: seq<Input>, i: nat, j: nat)
    requires IsClockedRun(ms, inputs) && i <= j < |ms|
    ensures ms[j].hub.cfg == ms[i].hub.cfg
  {
    if i < j {
      ConfigIsFixed(ms, inputs, i, j - 1);
      assert IsClockStep(ms, inputs, j - 1);
      ConfigStays(ms[j - 1].hub, inputs[j - 1]);
    }
  }

  lemma {:induction false} NoticedByStep(ms: seq<Moment>, inputs: seq<Input>, i: nat, j: nat, mac: Bytes, l: int, period: int)
    requires IsClockedRun(ms, inputs) && i <= j < |ms|
    requires forall x :: i <= x <= j ==> Waiting(ms[x], mac, l, period)
    requires Hub.IsOnline(ms[i].hub, mac) && ms[i].hub.cfg.healthTimeout >= 0
    requires ms[i].lastCheck <= l + ms[i].hub.cfg.healthTimeout
    ensures NoticedInTime(ms, inputs, i, j, mac, l, ms[i].hub.cfg.healthTimeout, period)
  {
    if i < j {
      NoticedByStep(ms, inputs, i, j - 1, mac, l, period);
      ConfigIsFixed(ms, inputs, i, j - 1);
      EntriesAreKeyed(ms, inputs, j - 1);
      NoticeGoesOn(ms, inputs, i, j, mac, l, ms[i].hub.cfg.healthTimeout, period);
    }
  }

  lemma {:induction false} ChecksAreInThePast(ms: seq<Moment>, inputs: seq<Input>, i: nat)
    requires IsClockedRun(ms, inputs) && i < |ms|
    ensures ms[i].lastCheck <= ms[i].now
  {
    if i > 0 {
      ChecksAreInThePast(ms, inputs, i - 1);
      assert IsClockStep(ms, inputs, i - 1);
    }
  }

  /** Whatever frames arrive: take an online node that has just reported, at time `l`, and then stays registered but silent
      while checks are never more than `period` apart. As long as it counts as online no more than timeout plus period have
      passed since `l`; and if it does not, one check reported it offline, later than the timeout after `l` and no later
      than one period after that. */
  lemma SilenceIsNoticed(ms: seq<Moment>, inputs: seq<Input>, i: nat, j: nat, mac: Bytes, l: int, period: int)
    requires IsClockedRun(ms, inputs) && i <= j < |ms|
    requires forall x :: i <= x <= j ==> Waiting(ms[x], mac, l, period)
    requires ms[i].now == l && Hub.IsOnline(ms[i].hub, mac) && ms[i].hub.cfg.healthTimeout >= 0
    ensures var limit := ms[i].hub.cfg.healthTimeout;
      if Hub.IsOnline(ms[j].hub, mac) then ms[j].now <= l + limit + period
      else exists x :: i <= x < j && ReportedAt(ms, inputs, x, mac, l, limit, period)
  {
    ChecksAreInThePast(ms, inputs, i);
    NoticedByStep(ms, inputs, i, j, mac, l, period);
  }

  lemma SilenceIsNoticedInHistory(states: seq<System>, actions: seq<Action>, i: nat, j: nat, mac: Bytes, l: int, period: int)
    requires IsHistory(states, actions) && i <= j < |states|
    requires forall x :: i <= x <= j ==> Waiting(Moments(states)[x], mac, l, period)
    requires states[i].now == l && Hub.IsOnline(states[i].hub, mac) && states[i].hub.cfg.healthTimeout >= 0
    ensures var limit := states[i].hub.cfg.healthTimeout;
      if Hub.IsOnline(states[j].hub, mac) then states[j].now <= l + limit + period
      else exists x :: i <= x < j && ReportedAt(Moments(states), Inputs(states, actions), x, mac, l, limit, period)
  {
    HistoryIsClocked(states, actions);
    SilenceIsNoticed(Moments(states), Inputs(states, actions), i, j, mac, l, period);
  }
}
