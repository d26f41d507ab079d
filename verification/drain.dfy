/** Draining the links: deliveries alone always come to an end, and an approved node that asks again ends up enrolled. */
module DrainProofs {
  import opened Bytes
  import opened Wire
  import opened Protocol
  import opened HubEffects
  import opened SimEffects
  import opened IdentityProofs
  import EnrollmentProofs
  import Auth
  import Hub
  import Nodes
  import Sim

  predicate IsDelivery(a: Action) {
    a.DeliverUp? || a.DeliverDown?
  }

  // ----- No frame storm -----

  /** A request to join can cost two frames back; any other frame to the hub costs none. */
  function UpWeight(m: MeshMessage): nat {
    if m.messageType == MSG_ENROLLMENT then 3 else 1
  }

  /** A command frame can cost one acknowledgement a node; any other frame to the nodes costs none. */
  function DownWeight(m: MeshMessage, n: nat): nat {
    if IsCommandFrame(m) then n + 1 else 1
  }

  function UpSum(q: seq<MeshMessage>): nat {
    if q == [] then 0 else UpWeight(q[0]) + UpSum(q[1..])
  }

  function DownSum(q: seq<MeshMessage>, n: nat): nat {
    if q == [] then 0 else DownWeight(q[0], n) + DownSum(q[1..], n)
  }

  function Measure(s: System): nat {
    UpSum(s.sim.tx) + DownSum(s.hub.tx, |s.sim.nodes|)
  }

  lemma {:induction false} UpSumAppend(q: seq<MeshMessage>, r: seq<MeshMessage>)
    ensures UpSum(q + r) == UpSum(q) + UpSum(r)
  {
    if q == [] {
      assert q + r == r;
    } else {
      assert (q + r)[1..] == q[1..] + r;
      UpSumAppend(q[1..], r);
    }
  }

  lemma {:induction false} DownSumAppend(q: seq<MeshMessage>, r: seq<MeshMessage>, n: nat)
    ensures DownSum(q + r, n) == DownSum(q, n) + DownSum(r, n)
  {
    if q == [] {
      assert q + r == r;
    } else {
      assert (q + r)[1..] == q[1..] + r;
      DownSumAppend(q[1..], r, n);
    }
  }

  lemma {:induction false} LightUpSum(q: seq<MeshMessage>)
    requires forall i :: 0 <= i < |q| ==> q[i].messageType != MSG_ENROLLMENT
    ensures UpSum(q) == |q|
  {
    if q != [] {
      LightUpSum(q[1..]);
    }
  }

  lemma {:induction false} LightDownSum(q: seq<MeshMessage>, n: nat)
    requires forall i :: 0 <= i < |q| ==> !IsCommandFrame(q[i])
    ensures DownSum(q, n) == |q|
  {
    if q != [] {
      LightDownSum(q[1..], n);
    }
  }

  lemma {:induction false} OrderSize<T(!new)>(order: seq<T>, keys: set<T>)
    requires Hub.IsOrder(order, keys)
    ensures |order| == |keys|
  {
    if order == [] {
      assert forall k :: k in keys ==> k in order;
      assert keys == {};
    } else {
      var init, k := order[..|order| - 1], order[|order| - 1];
      forall j ensures j in init <==> j in keys - {k} {
        if j in init {
          var i :| 0 <= i < |init| && init[i] == j;
          assert order[i] == j && order[i] != k;
        }
        if j in keys - {k} {
          assert j in order;
          var i :| 0 <= i < |order| && order[i] == j;
          assert init[i] == j;
        }
      }
      OrderSize(init, keys - {k});
      assert k in order;
    }
  }

  lemma ResendIsLight(me: Identity, t: Nodes.Table, mac: Mac, key: Key, hint: Bytes)
    ensures var frames := Hub.EnrollmentFrames(me, mac, key, Hub.Decide(t, mac, Hub.ResendParams(t, mac), hint));
      |frames| <= 2 && forall i :: 0 <= i < |frames| ==> !IsCommandFrame(frames[i])
  {
    assert Hub.Decide(t, mac, Hub.ResendParams(t, mac), hint).inherited == TYPE_UNKNOWN;
  }

  /** The frames a request can provoke: at most a JOIN_ACK and an ID, neither of which provokes an answer. */
  lemma RequestFrames(h: Hub.State, m: MeshMessage, hints: Hub.Hints, now: int)
    requires m.messageType == MSG_ENROLLMENT
    ensures var r := Hub.HandleMessage(h, m, hints, now);
      h.tx <= r.tx && |r.tx| <= |h.tx| + 2 && forall i :: |h.tx| <= i < |r.tx| ==> !IsCommandFrame(r.tx[i])
  {
    if m.protoVersion == 5 && Hub.IsRequest(m) {
      var mac: Mac, key: Key := m.origin[..6], m.publicKey;
      if Auth.IsRepeat(h.auth, mac, key) {
        var h1 := h.(auth := Auth.AddPending(h.auth, mac, key, now));
        Hub.EnrollEffect(h1, mac, Hub.ResendParams(h1.nodes, mac), hints.holder, now);
        ResendIsLight(h.cfg.me, h.nodes, mac, key, hints.holder);
      }
    }
  }

  lemma DeliverUpShrinks(s: System, hints: Hub.Hints)
    requires s.sim.tx != []
    ensures Measure(Apply(s, DeliverUp(hints))) < Measure(s)
  {
    var m := s.sim.tx[0];
    var r := Apply(s, DeliverUp(hints));
    if m.messageType == MSG_ENROLLMENT {
      RequestFrames(s.hub, m, hints, s.now);
      var rest := r.hub.tx[|s.hub.tx|..];
      assert r.hub.tx == s.hub.tx + rest;
      DownSumAppend(s.hub.tx, rest, |s.sim.nodes|);
      LightDownSum(rest, |s.sim.nodes|);
    } else {
      SilentMessage(s.hub, m, hints, s.now);
    }
  }

  /** What one frame to the nodes can add to the other link. */
  lemma AnswersAreLight(s: Sim.State, m: MeshMessage, order: seq<Mac>)
    requires Hub.IsOrder(order, s.nodes.Keys)
    ensures var r := Sim.HandleFrame(s, m, order);
      |r.nodes| == |s.nodes| && UpSum(r.tx) <= UpSum(s.tx) + DownWeight(m, |s.nodes|) - 1
  {
    var r := Sim.HandleFrame(s, m, order);
    FrameEffect(s, m, order);
    OrderSize(order, s.nodes.Keys);
    assert |r.nodes.Keys| == |s.nodes.Keys|;
    var rest := r.tx[|s.tx|..];
    assert r.tx == s.tx + rest;
    UpSumAppend(s.tx, rest);
    forall i | 0 <= i < |rest| ensures rest[i].messageType != MSG_ENROLLMENT {
      assert rest[i] == r.tx[|s.tx| + i];
    }
    LightUpSum(rest);
  }

  lemma DeliverDownShrinks(s: System, order: seq<Mac>)
    requires Enabled(s, DeliverDown(order))
    ensures Measure(Apply(s, DeliverDown(order))) < Measure(s)
    ensures |Apply(s, DeliverDown(order)).sim.nodes| == |s.sim.nodes|
  {
    AnswersAreLight(s.sim, s.hub.tx[0], order);
  }

  lemma {:induction false} MeasureBound(s: System)
    ensures Measure(s) <= 3 * |s.sim.tx| + (|s.sim.nodes| + 1) * |s.hub.tx|
  {
    UpSumBound(s.sim.tx);
    DownSumBound(s.hub.tx, |s.sim.nodes|);
  }

  lemma {:induction false} UpSumBound(q: seq<MeshMessage>)
    ensures UpSum(q) <= 3 * |q|
  {
    if q != [] {
      UpSumBound(q[1..]);
    }
  }

  lemma {:induction false} DownSumBound(q: seq<MeshMessage>, n: nat)
    ensures DownSum(q, n) <= (n + 1) * |q|
  {
    if q != [] {
      DownSumBound(q[1..], n);
      assert (n + 1) * |q| == (n + 1) * |q[1..]| + (n + 1);
    }
  }

  lemma DeliveryShrinks(s: System, a: Action)
    requires Enabled(s, a) && IsDelivery(a)
    ensures Measure(Apply(s, a)) < Measure(s)
  {
    if a.DeliverUp? {
      DeliverUpShrinks(s, a.hints);
    } else {
      DeliverDownShrinks(s, a.order);
    }
  }

  lemma DeliveryShrinksAt(states: seq<System>, actions: seq<Action>, i: nat)
    requires i < |actions| < |states| && IsStep(states, actions, i) && IsDelivery(actions[i])
    ensures Measure(states[i + 1]) < Measure(states[i])
  {
    DeliveryShrinks(states[i], actions[i]);
  }

  predicate Falling(ms: seq<nat>) {
    forall k :: 0 <= k < |ms| - 1 ==> ms[k + 1] < ms[k]
  }

  lemma {:induction false} FallsEachStep(ms: seq<nat>, i: nat)
    requires i < |ms| && Falling(ms)
    ensures ms[i] + i <= ms[0]
  {
    if i > 0 {
      FallsEachStep(ms, i - 1);
      assert ms[i - 1 + 1] < ms[i - 1];
    }
  }

  function Measures(states: seq<System>): (ms: seq<nat>)
    ensures |ms| == |states| && forall k :: 0 <= k < |ms| ==> ms[k] == Measure(states[k])
  {
    if states == [] then [] else Measures(states[..|states| - 1]) + [Measure(states[|states| - 1])]
  }

  lemma MeasuresFall(states: seq<System>, actions: seq<Action>)
    requires IsRun(states, actions)
    requires forall k :: 0 <= k < |actions| ==> IsDelivery(actions[k])
    ensures Falling(Measures(states))
  {
    var ms := Measures(states);
    forall k | 0 <= k < |ms| - 1 ensures ms[k + 1] < ms[k] {
      assert IsStep(states, actions, k);
      DeliveryShrinksAt(states, actions, k);
    }
  }

  lemma DeliveriesShrink(states: seq<System>, actions: seq<Action>, i: nat)
    requires IsRun(states, actions) && i <= |actions|
    requires forall k :: 0 <= k < |actions| ==> IsDelivery(actions[k])
    ensures Measure(states[i]) + i <= Measure(states[0])
  {
    MeasuresFall(states, actions);
    FallsEachStep(Measures(states), i);
  }

  /** No frame storm: from any state whatever, a run of deliveries alone is no longer than three steps for each frame
      on the way to the hub and one plus the number of nodes for each on the way to them. */
  lemma DeliveriesTerminate(states: seq<System>, actions: seq<Action>)
    requires IsRun(states, actions)
    requires forall k :: 0 <= k < |actions| ==> IsDelivery(actions[k])
    ensures |actions| <= 3 * |states[0].sim.tx| + (|states[0].sim.nodes| + 1) * |states[0].hub.tx|
  {
    DeliveriesShrink(states, actions, |actions|);
    MeasureBound(states[0]);
  }

  // ----- Self-heal -----

  ghost predicate RepeatInFlight(s: System, mac: Mac) {
    exists i :: 0 <= i < |s.sim.tx| && s.sim.tx[i].messageType == MSG_ENROLLMENT && s.sim.tx[i].protoVersion == 5
              && s.sim.tx[i].origin == mac
  }

  ghost predicate JoinAckInFlight(s: System, mac: Mac) {
    exists i :: 0 <= i < |s.hub.tx| && Enrolls(s.hub.tx[i], mac)
  }

  ghost predicate StandsApproved(s: System, mac: Mac) {
    mac in s.hub.auth && s.hub.auth[mac].status == Auth.Approved
  }

  /** The node is enrolled, or on its way: its JOIN_ACK is in flight, or a repeat of its approved request is. */
  ghost predicate Healing(s: System, mac: Mac) {
    && mac in s.sim.nodes
    && (s.sim.nodes[mac].enrolled || JoinAckInFlight(s, mac) || (StandsApproved(s, mac) && RepeatInFlight(s, mac)))
  }

  lemma RequestsKeepApproval(h: Hub.State, m: MeshMessage, hints: Hub.Hints, now: int, mac: Mac)
    requires mac in h.auth && h.auth[mac].status == Auth.Approved
    requires m.messageType == MSG_ENROLLMENT && |m.origin| == 6
    requires m.origin == mac ==> m.publicKey == h.auth[mac].publicKey
    ensures var r := Hub.HandleMessage(h, m, hints, now);
      mac in r.auth && r.auth[mac].status == Auth.Approved
  {
    if m.protoVersion == 5 && Hub.IsRequest(m) {
      var from: Mac, key: Key := m.origin[..6], m.publicKey;
      assert from == m.origin;
      var h1 := h.(auth := Auth.AddPending(h.auth, from, key, now));
      Hub.EnrollEffect(h1, from, Hub.ResendParams(h1.nodes, from), hints.holder, now);
    }
  }

  /** Reading a repeat of the approved request sends the JOIN_ACK. */
  lemma RepeatSendsJoinAck(s: System, hints: Hub.Hints, mac: Mac)
    requires IdentityInv(s) && StandsApproved(s, mac) && s.sim.tx != []
    requires s.sim.tx[0].messageType == MSG_ENROLLMENT && s.sim.tx[0].protoVersion == 5 && s.sim.tx[0].origin == mac
    ensures JoinAckInFlight(Apply(s, DeliverUp(hints)), mac)
  {
    var m := s.sim.tx[0];
    assert m.origin[..6] == mac && EnrollmentProofs.IsRepeatRequest(s.hub, m);
    EnrollmentProofs.ResendFrames(s.hub, m, hints.holder, s.now);
    var r := Apply(s, DeliverUp(hints));
    var ack := r.hub.tx[|s.hub.tx|];
    assert ack == JoinAckMsg(s.hub.cfg.me, mac, m.publicKey) && ack.target[..6] == mac;
    assert Enrolls(ack, mac);
  }

  lemma DeliverUpKeepsLinks(s: System, hints: Hub.Hints, mac: Mac)
    requires IdentityInv(s) && s.sim.tx != []
    ensures var r := Apply(s, DeliverUp(hints));
      && (JoinAckInFlight(s, mac) ==> JoinAckInFlight(r, mac))
      && (StandsApproved(s, mac) ==> StandsApproved(r, mac))
  {
    var m := s.sim.tx[0];
    var r := Apply(s, DeliverUp(hints));
    if m.messageType == MSG_ENROLLMENT {
      RequestFrames(s.hub, m, hints, s.now);
      if StandsApproved(s, mac) {
        RequestsKeepApproval(s.hub, m, hints, s.now, mac);
      }
    } else {
      RoutineMessage(s.hub, m, hints, s.now);
    }
    if JoinAckInFlight(s, mac) {
      var i :| 0 <= i < |s.hub.tx| && Enrolls(s.hub.tx[i], mac);
      assert r.hub.tx[i] == s.hub.tx[i];
    }
  }

  lemma DeliverUpKeepsHealing(s: System, hints: Hub.Hints, mac: Mac)
    requires IdentityInv(s) && Healing(s, mac) && s.sim.tx != []
    ensures Healing(Apply(s, DeliverUp(hints)), mac)
  {
    var r := Apply(s, DeliverUp(hints));
    DeliverUpKeepsLinks(s, hints, mac);
    if !s.sim.nodes[mac].enrolled && !JoinAckInFlight(s, mac) {
      var i :| 0 <= i < |s.sim.tx| && s.sim.tx[i].messageType == MSG_ENROLLMENT && s.sim.tx[i].protoVersion == 5
             && s.sim.tx[i].origin == mac;
      if i == 0 {
        RepeatSendsJoinAck(s, hints, mac);
      } else {
        assert r.sim.tx[i - 1] == s.sim.tx[i];
      }
    }
  }

  lemma DeliverDownKeepsHealing(s: System, order: seq<Mac>, mac: Mac)
    requires Healing(s, mac) && Enabled(s, DeliverDown(order))
    ensures Healing(Apply(s, DeliverDown(order)), mac)
  {
    var m := s.hub.tx[0];
    var r := Apply(s, DeliverDown(order));
    FrameEffect(s.sim, m, order);
    assert FrameOnNode(s.sim.nodes[mac], m, mac, r.sim.nodes[mac]);
    if JoinAckInFlight(s, mac) {
      var i :| 0 <= i < |s.hub.tx| && Enrolls(s.hub.tx[i], mac);
      if i > 0 {
        assert r.hub.tx[i - 1] == s.hub.tx[i];
      }
    }
    if RepeatInFlight(s, mac) {
      var i :| 0 <= i < |s.sim.tx| && s.sim.tx[i].messageType == MSG_ENROLLMENT && s.sim.tx[i].protoVersion == 5
             && s.sim.tx[i].origin == mac;
      assert r.sim.tx[i] == s.sim.tx[i];
    }
  }

  lemma HealingStep(s: System, a: Action, mac: Mac)
    requires IdentityInv(s) && Healing(s, mac) && Enabled(s, a) && IsDelivery(a)
    ensures Healing(Apply(s, a), mac)
  {
    match a
    case DeliverUp(hints) => DeliverUpKeepsHealing(s, hints, mac);
    case DeliverDown(order) => DeliverDownKeepsHealing(s, order, mac);
  }

  lemma {:induction false} HealingPersists(states: seq<System>, actions: seq<Action>, i: nat, j: nat, mac: Mac)
    requires IsHistory(states, actions) && i <= j < |states|
    requires forall k :: i <= k < j ==> IsDelivery(actions[k])
    requires Healing(states[i], mac)
    ensures Healing(states[j], mac)
  {
    if i < j {
      HealingPersists(states, actions, i, j - 1, mac);
      IdentityHolds(states, actions, j - 1);
      assert IsStep(states, actions, j - 1);
      HealingStep(states[j - 1], actions[j - 1], mac);
    }
  }

  /** Self-heal: if at some point of a run the record of `mac` is approved and a request carrying its key is in flight,
      then once deliveries alone have emptied both links, that node is enrolled. */
  lemma RepeatHeals(states: seq<System>, actions: seq<Action>, i: nat, j: nat, f: nat, mac: Mac)
    requires IsHistory(states, actions) && i <= j < |states|
    requires forall k :: i <= k < j ==> IsDelivery(actions[k])
    requires f < |states[i].sim.tx|
    requires var m := states[i].sim.tx[f];
      m.messageType == MSG_ENROLLMENT && m.protoVersion == 5 && m.origin == mac && |m.publicKey| == 32
      && Auth.IsRepeat(states[i].hub.auth, mac, m.publicKey)
    requires states[j].sim.tx == [] && states[j].hub.tx == []
    ensures mac in states[j].sim.nodes && states[j].sim.nodes[mac].enrolled
  {
    IdentityHolds(states, actions, i);
    assert RepeatInFlight(states[i], mac);
    assert Healing(states[i], mac);
    HealingPersists(states, actions, i, j, mac);
  }

  lemma ApprovalSendsJoinAck(s: System, a: Action)
    requires a.AdminApprove? && a.mac in s.hub.auth
    ensures JoinAckInFlight(Apply(s, a), a.mac)
  {
    var h1 := s.hub.(trust := s.hub.trust + [Hub.AdminApproved(a.mac, s.hub.auth[a.mac].publicKey)]);
    Hub.EnrollEffect(h1, a.mac, a.params, a.hint, s.now);
    var ack := Apply(s, a).hub.tx[|s.hub.tx|];
    assert ack == JoinAckMsg(s.hub.cfg.me, a.mac, s.hub.auth[a.mac].publicKey) && ack.target[..6] == a.mac;
    assert Enrolls(ack, a.mac);
  }

  lemma ApprovalHeals(s: System, a: Action)
    requires IdentityInv(s) && a.AdminApprove? && a.mac in s.hub.auth
    ensures Healing(Apply(s, a), a.mac)
  {
    ApprovalSendsJoinAck(s, a);
  }

  lemma ApprovalHealsAt(states: seq<System>, actions: seq<Action>, i: nat)
    requires IsHistory(states, actions) && i < |actions|
    requires actions[i].AdminApprove? && actions[i].mac in states[i].hub.auth
    ensures Healing(states[i + 1], actions[i].mac)
  {
    IdentityHolds(states, actions, i);
    assert IsStep(states, actions, i);
    ApprovalHeals(states[i], actions[i]);
  }

  // ----- The inherited type -----

  /** The adapter type the node at `mac` has after reading `frames`, when it has `ty` before. */
  function FinalType(frames: seq<MeshMessage>, mac: Bytes, ty: int): int {
    if frames == [] then ty
    else FinalType(frames[1..], mac, if SetsTypeOf(frames[0], mac) then frames[0].data[7] else ty)
  }

  lemma {:induction false} FinalTypeAppend(q: seq<MeshMessage>, r: seq<MeshMessage>, mac: Bytes, ty: int)
    ensures FinalType(q + r, mac, ty) == FinalType(r, mac, FinalType(q, mac, ty))
  {
    if q == [] {
      assert q + r == r;
    } else {
      assert (q + r)[1..] == q[1..] + r;
      FinalTypeAppend(q[1..], r, mac, if SetsTypeOf(q[0], mac) then q[0].data[7] else ty);
    }
  }

  lemma {:induction false} FinalTypeIgnores(r: seq<MeshMessage>, mac: Bytes, ty: int)
    requires forall i :: 0 <= i < |r| ==> !SetsTypeOf(r[i], mac)
    ensures FinalType(r, mac, ty) == ty
  {
    if r != [] {
      FinalTypeIgnores(r[1..], mac, ty);
    }
  }

  /** A node is there, and reading the frames in flight leaves it with this adapter type. */
  ghost predicate TypeSettles(s: System, mac: Mac, ty: int) {
    mac in s.sim.nodes && FinalType(s.hub.tx, mac, s.sim.nodes[mac].adapterType) == ty
  }

  lemma InheritedTypeIsLast(me: Identity, mac: Mac, key: Key, a: Hub.Assignment, ty: int)
    requires a.inherited != TYPE_UNKNOWN
    ensures FinalType(Hub.EnrollmentFrames(me, mac, key, a), mac, ty) == ToByte(a.inherited)
  {
    var cfg := ConfigSetMsg(me, mac, a.inherited);
    var first := [JoinAckMsg(me, mac, key)] + (if a.nodeID > 0 then [NodeIdSetMsg(me, mac, a.nodeID)] else []);
    assert Hub.EnrollmentFrames(me, mac, key, a) == first + [cfg];
    FinalTypeAppend(first, [cfg], mac, ty);
    assert cfg.data[1..7] == mac && cfg.data[7] == ToByte(a.inherited);
    assert [cfg][1..] == [];
  }

  lemma ApprovalSettlesType(s: System, a: Action)
    requires a.AdminApprove? && a.mac in s.hub.auth && a.mac in s.sim.nodes
    requires Hub.Decide(s.hub.nodes, a.mac, a.params, a.hint).inherited != TYPE_UNKNOWN
    ensures TypeSettles(Apply(s, a), a.mac, ToByte(Hub.Decide(s.hub.nodes, a.mac, a.params, a.hint).inherited))
  {
    var key := s.hub.auth[a.mac].publicKey;
    var d := Hub.Decide(s.hub.nodes, a.mac, a.params, a.hint);
    var h1 := s.hub.(trust := s.hub.trust + [Hub.AdminApproved(a.mac, key)]);
    Hub.EnrollEffect(h1, a.mac, a.params, a.hint, s.now);
    var ty := s.sim.nodes[a.mac].adapterType;
    FinalTypeAppend(s.hub.tx, Hub.EnrollmentFrames(s.hub.cfg.me, a.mac, key, d), a.mac, ty);
    InheritedTypeIsLast(s.hub.cfg.me, a.mac, key, d, FinalType(s.hub.tx, a.mac, ty));
  }

  lemma ResendSetsNoType(me: Identity, t: Nodes.Table, mac: Mac, key: Key, hint: Bytes, k: Bytes)
    ensures var frames := Hub.EnrollmentFrames(me, mac, key, Hub.Decide(t, mac, Hub.ResendParams(t, mac), hint));
      forall i :: 0 <= i < |frames| ==> !SetsTypeOf(frames[i], k)
  {
    assert Hub.Decide(t, mac, Hub.ResendParams(t, mac), hint).inherited == TYPE_UNKNOWN;
  }

  /** No frame makes the hub set a node's type. */
  lemma MessageSetsNoType(h: Hub.State, m: MeshMessage, hints: Hub.Hints, now: int, k: Bytes)
    ensures var r := Hub.HandleMessage(h, m, hints, now);
      h.tx <= r.tx && forall i :: |h.tx| <= i < |r.tx| ==> !SetsTypeOf(r.tx[i], k)
  {
    if m.messageType != MSG_ENROLLMENT {
      SilentMessage(h, m, hints, now);
    } else if m.protoVersion == 5 && Hub.IsRequest(m) {
      var mac: Mac, key: Key := m.origin[..6], m.publicKey;
      if Auth.IsRepeat(h.auth, mac, key) {
        var h1 := h.(auth := Auth.AddPending(h.auth, mac, key, now));
        Hub.EnrollEffect(h1, mac, Hub.ResendParams(h1.nodes, mac), hints.holder, now);
        ResendSetsNoType(h.cfg.me, h.nodes, mac, key, hints.holder, k);
      }
    }
  }

  lemma DeliverUpKeepsType(s: System, hints: Hub.Hints, mac: Mac, ty: int)
    requires TypeSettles(s, mac, ty) && s.sim.tx != []
    ensures TypeSettles(Apply(s, DeliverUp(hints)), mac, ty)
  {
    var r := Apply(s, DeliverUp(hints));
    MessageSetsNoType(s.hub, s.sim.tx[0], hints, s.now, mac);
    var rest := r.hub.tx[|s.hub.tx|..];
    assert r.hub.tx == s.hub.tx + rest;
    FinalTypeAppend(s.hub.tx, rest, mac, s.sim.nodes[mac].adapterType);
    FinalTypeIgnores(rest, mac, ty);
  }

  lemma DeliverDownKeepsType(s: System, order: seq<Mac>, mac: Mac, ty: int)
    requires TypeSettles(s, mac, ty) && Enabled(s, DeliverDown(order))
    ensures TypeSettles(Apply(s, DeliverDown(order)), mac, ty)
  {
    FrameEffect(s.sim, s.hub.tx[0], order);
    assert FrameOnNode(s.sim.nodes[mac], s.hub.tx[0], mac, Apply(s, DeliverDown(order)).sim.nodes[mac]);
  }

  lemma DeliveryKeepsType(s: System, a: Action, mac: Mac, ty: int)
    requires TypeSettles(s, mac, ty) && Enabled(s, a) && IsDelivery(a)
    ensures TypeSettles(Apply(s, a), mac, ty)
  {
    if a.DeliverUp? {
      DeliverUpKeepsType(s, a.hints, mac, ty);
    } else {
      DeliverDownKeepsType(s, a.order, mac, ty);
    }
  }

  lemma {:induction false} TypePersists(states: seq<System>, actions: seq<Action>, i: nat, j: nat, mac: Mac, ty: int)
    requires IsHistory(states, actions) && i <= j < |states|
    requires forall k :: i <= k < j ==> IsDelivery(actions[k])
    requires TypeSettles(states[i], mac, ty)
    ensures TypeSettles(states[j], mac, ty)
  {
    if i < j {
      TypePersists(states, actions, i, j - 1, mac, ty);
      assert IsStep(states, actions, j - 1);
      DeliveryKeepsType(states[j - 1], actions[j - 1], mac, ty);
    }
  }

  lemma ApprovalSettlesTypeAt(states: seq<System>, actions: seq<Action>, i: nat, ty: int)
    requires IsHistory(states, actions) && i < |actions|
    requires actions[i].AdminApprove? && actions[i].mac in states[i].hub.auth
    requires ty == Hub.Decide(states[i].hub.nodes, actions[i].mac, actions[i].params, actions[i].hint).inherited != TYPE_UNKNOWN
    ensures TypeSettles(states[i + 1], actions[i].mac, ToByte(ty))
  {
    IdentityHolds(states, actions, i);
    assert IsStep(states, actions, i);
    ApprovalSettlesType(states[i], actions[i]);
  }

  /** An approval that inherits an adapter type, end to end: once deliveries alone have emptied the link to the nodes, the
      approved node has that type, cut to the byte it travels in. */
  lemma ApprovalGivesType(states: seq<System>, actions: seq<Action>, i: nat, j: nat, mac: Mac, ty: int)
    requires IsHistory(states, actions) && i < j < |states|
    requires actions[i].AdminApprove? && actions[i].mac == mac && mac in states[i].hub.auth
    requires ty == Hub.Decide(states[i].hub.nodes, mac, actions[i].params, actions[i].hint).inherited != TYPE_UNKNOWN
    requires forall k :: i < k < j ==> IsDelivery(actions[k])
    requires states[j].hub.tx == []
    ensures mac in states[j].sim.nodes && states[j].sim.nodes[mac].adapterType == ToByte(ty)
  {
    ApprovalSettlesTypeAt(states, actions, i, ty);
    TypePersists(states, actions, i + 1, j, mac, ToByte(ty));
  }

  lemma HealedWhenDrained(s: System, mac: Mac)
    requires Healing(s, mac) && s.sim.tx == [] && s.hub.tx == []
    ensures mac in s.sim.nodes && s.sim.nodes[mac].enrolled
  {
  }

  /** Approval end to end: once the administrator approves a node that asked, and deliveries alone have emptied both
      links, that node is enrolled, has the ID the hub holds for it if it holds one, and, if the approval inherited an
      adapter type, has that type. */
  lemma ApprovalEnrolls(states: seq<System>, actions: seq<Action>, i: nat, j: nat, mac: Mac)
    requires IsHistory(states, actions) && i < j < |states|
    requires actions[i].AdminApprove? && actions[i].mac == mac && mac in states[i].hub.auth
    requires forall k :: i < k < j ==> IsDelivery(actions[k])
    requires states[j].sim.tx == [] && states[j].hub.tx == []
    ensures mac in states[j].sim.nodes && states[j].sim.nodes[mac].enrolled
    ensures mac in states[j].hub.nodes && states[j].hub.nodes[mac].nodeID > 0 ==>
      states[j].sim.nodes[mac].nodeID == states[j].hub.nodes[mac].nodeID
    ensures var ty := Hub.Decide(states[i].hub.nodes, mac, actions[i].params, actions[i].hint).inherited;
      ty != TYPE_UNKNOWN ==> states[j].sim.nodes[mac].adapterType == ToByte(ty)
  {
    var ty := Hub.Decide(states[i].hub.nodes, mac, actions[i].params, actions[i].hint).inherited;
    if ty != TYPE_UNKNOWN {
      ApprovalGivesType(states, actions, i, j, mac, ty);
    }
    ApprovalHealsAt(states, actions, i);
    HealingPersists(states, actions, i + 1, j, mac);
    HealedWhenDrained(states[j], mac);
    if mac in states[j].hub.nodes && states[j].hub.nodes[mac].nodeID > 0 {
      DrainedSidesAgree(states, actions, j, mac);
    }
  }

  /** A hotswap end to end: approving a node with the ID of another live one and no type named, when that one's type is
      known, leaves the new node enrolled and with the old one's type, cut to the byte it travels in. */
  lemma HotswapEnrolls(states: seq<System>, actions: seq<Action>, i: nat, j: nat, mac: Mac, holder: Bytes)
    requires IsHistory(states, actions) && i < j < |states|
    requires actions[i].AdminApprove? && actions[i].mac == mac && mac in states[i].hub.auth
    requires var p := actions[i].params;
      p.nodeID > 0 && p.typeName == "" && holder != mac && Nodes.Holds(states[i].hub.nodes, holder, p.nodeID)
    requires states[i].hub.nodes[holder].adapterType != TYPE_UNKNOWN
    requires forall k :: i < k < j ==> IsDelivery(actions[k])
    requires states[j].sim.tx == [] && states[j].hub.tx == []
    ensures mac in states[j].sim.nodes && states[j].sim.nodes[mac].enrolled
    ensures states[j].sim.nodes[mac].adapterType == ToByte(states[i].hub.nodes[holder].adapterType)
  {
    InheritedFrom(states, actions, i, mac, holder);
    ApprovalEnrolls(states, actions, i, j, mac);
  }

  lemma InheritedFrom(states: seq<System>, actions: seq<Action>, i: nat, mac: Mac, holder: Bytes)
    requires IsHistory(states, actions) && i < |actions| && actions[i].AdminApprove?
    requires var p := actions[i].params;
      p.nodeID > 0 && p.typeName == "" && holder != mac && Nodes.Holds(states[i].hub.nodes, holder, p.nodeID)
    ensures Hub.Decide(states[i].hub.nodes, mac, actions[i].params, actions[i].hint).inherited
         == states[i].hub.nodes[holder].adapterType
  {
    IdentityHolds(states, actions, i);
    EnrollmentProofs.HotswapTable(states[i].hub.nodes, mac, actions[i].params, holder, actions[i].hint);
  }

  // ----- Draining to the end -----

  lemma {:induction false} OrderExists<T(!new)>(keys: set<T>)
    ensures exists order: seq<T> :: Hub.IsOrder(order, keys)
  {
    if keys == {} {
      assert Hub.IsOrder<T>([], keys);
    } else {
      var k :| k in keys;
      OrderExists(keys - {k});
      var order: seq<T> :| Hub.IsOrder(order, keys - {k});
      assert Hub.IsOrder(order + [k], keys);
    }
  }

  /** Deliver until both links are empty, frames for the hub first. */
  ghost function Drained(s: System): (r: System)
    ensures r.sim.tx == [] && r.hub.tx == []
    decreases Measure(s)
  {
    if s.sim.tx != [] then
      var hints := Hub.Hints([], Zeros(16));
      DeliverUpShrinks(s, hints);
      Drained(Apply(s, DeliverUp(hints)))
    else if s.hub.tx != [] then
      OrderExists(s.sim.nodes.Keys);
      var order: seq<Mac> :| Hub.IsOrder(order, s.sim.nodes.Keys);
      DeliverDownShrinks(s, order);
      Drained(Apply(s, DeliverDown(order)))
    else s
  }

  /** So an approved node whose repeat request is in flight, in any state a run can reach, is enrolled after draining. */
  lemma {:induction false} DrainingHeals(s: System, mac: Mac)
    requires IdentityInv(s) && Healing(s, mac)
    ensures mac in Drained(s).sim.nodes && Drained(s).sim.nodes[mac].enrolled
    decreases Measure(s)
  {
    if s.sim.tx != [] {
      var a := DeliverUp(Hub.Hints([], Zeros(16)));
      DeliverUpShrinks(s, a.hints);
      IdentityStep(s, a);
      HealingStep(s, a, mac);
      DrainingHeals(Apply(s, a), mac);
    } else if s.hub.tx != [] {
      OrderExists(s.sim.nodes.Keys);
      var order: seq<Mac> :| Hub.IsOrder(order, s.sim.nodes.Keys)
        && Drained(s) == Drained(Apply(s, DeliverDown(order)));
      DeliverDownShrinks(s, order);
      IdentityStep(s, DeliverDown(order));
      HealingStep(s, DeliverDown(order), mac);
      DrainingHeals(Apply(s, DeliverDown(order)), mac);
    }
  }
}
