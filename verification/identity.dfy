/** Identity over whole runs: logical IDs stay unique, the trust registry only knows keys the nodes really have,
    and the two sides of the link agree on every node's ID up to the frames still in flight. */
module IdentityProofs {
  import opened Bytes
  import opened Wire
  import opened Protocol
  import opened HubEffects
  import opened SimEffects
  import Nodes
  import Auth
  import Hub
  import HubRuns

  /** Every request in flight, and every trust record, names a node and carries that node's own key. */
  ghost predicate Honest(s: System) {
    && Keyed(s.sim.nodes)
    && (forall m :: m in s.hub.auth ==> m in s.sim.nodes && s.hub.auth[m].publicKey == s.sim.nodes[m].publicKey)
    && (forall i :: 0 <= i < |s.sim.tx| && s.sim.tx[i].messageType == MSG_ENROLLMENT ==> IsOwnRequest(s.sim.nodes, s.sim.tx[i]))
  }

  /** The ID the node at `mac` has after reading `frames`, when it has `id` before. */
  function FinalID(frames: seq<MeshMessage>, mac: Bytes, id: byte): byte {
    if frames == [] then id
    else FinalID(frames[1..], mac, if SetsIDOf(frames[0], mac) then frames[0].data[7] else id)
  }

  /** Whoever has an ID at the hub is a node, and reading the frames in flight leaves it with exactly that ID. */
  ghost predicate Agreed(s: System) {
    forall m :: m in s.hub.nodes && s.hub.nodes[m].nodeID > 0 ==>
      m in s.sim.nodes && FinalID(s.hub.tx, m, s.sim.nodes[m].nodeID) == s.hub.nodes[m].nodeID
  }

  ghost predicate IdentityInv(s: System) {
    Honest(s) && GoodTable(s.hub.nodes) && Agreed(s)
  }

  // ----- Reading a queue -----

  lemma {:induction false} FinalIDAppend(q: seq<MeshMessage>, r: seq<MeshMessage>, mac: Bytes, id: byte)
    ensures FinalID(q + r, mac, id) == FinalID(r, mac, FinalID(q, mac, id))
  {
    if q == [] {
      assert q + r == r;
    } else {
      assert (q + r)[1..] == q[1..] + r;
      FinalIDAppend(q[1..], r, mac, if SetsIDOf(q[0], mac) then q[0].data[7] else id);
    }
  }

  lemma {:induction false} FinalIDIgnores(r: seq<MeshMessage>, mac: Bytes, id: byte)
    requires forall i :: 0 <= i < |r| ==> !SetsIDOf(r[i], mac)
    ensures FinalID(r, mac, id) == id
  {
    if r != [] {
      FinalIDIgnores(r[1..], mac, id);
    }
  }

  lemma PlainKeepsFinalID(q: seq<MeshMessage>, r: seq<MeshMessage>, mac: Bytes, id: byte)
    requires AppendsPlain(q, r)
    ensures FinalID(r, mac, id) == FinalID(q, mac, id)
  {
    var rest := r[|q|..];
    assert r == q + rest;
    FinalIDAppend(q, rest, mac, id);
    forall i | 0 <= i < |rest| ensures !SetsIDOf(rest[i], mac) {
      assert IsPlainFrame(r[|q| + i]);
    }
    FinalIDIgnores(rest, mac, FinalID(q, mac, id));
  }

  /** The frames of an approval assign the approved node its ID, and nobody else anything. */
  lemma EnrollmentSetsID(me: Identity, mac: Mac, key: Key, a: Hub.Assignment, k: Bytes, id: byte)
    ensures FinalID(Hub.EnrollmentFrames(me, mac, key, a), k, id) == if k == mac && a.nodeID > 0 then a.nodeID else id
  {
    var ack, cfg := [JoinAckMsg(me, mac, key)], if a.inherited != TYPE_UNKNOWN then [ConfigSetMsg(me, mac, a.inherited)] else [];
    var ids := if a.nodeID > 0 then [NodeIdSetMsg(me, mac, a.nodeID)] else [];
    FinalIDAppend(ack + ids, cfg, k, id);
    FinalIDAppend(ack, ids, k, id);
    if a.nodeID > 0 {
      var d := NodeIdSetMsg(me, mac, a.nodeID).data;
      assert d[1..7] == mac && d[7] == a.nodeID;
      assert ids[1..] == [];
    }
    FinalIDIgnores(ack, k, id);
    FinalIDIgnores(cfg, k, FinalID(ids, k, id));
  }

  // ----- Steps of the hub -----

  lemma RoutineKeepsIdentity(s: System, r: System)
    requires IdentityInv(s) && Routine(s.hub, r.hub) && r.sim == s.sim
    ensures IdentityInv(r)
  {
    forall m | m in r.hub.nodes && r.hub.nodes[m].nodeID > 0
      ensures m in r.sim.nodes && FinalID(r.hub.tx, m, r.sim.nodes[m].nodeID) == r.hub.nodes[m].nodeID
    {
      PlainKeepsFinalID(s.hub.tx, r.hub.tx, m, s.sim.nodes[m].nodeID);
    }
  }

  lemma EnrollKeepsIdentity(s: System, mac: Mac, p: Hub.ApprovalParams, hint: Bytes)
    requires IdentityInv(s) && mac in s.hub.auth
    ensures IdentityInv(s.(hub := Hub.Enroll(s.hub, mac, p, hint, s.now)))
  {
    var a := Hub.Decide(s.hub.nodes, mac, p, hint);
    var key := s.hub.auth[mac].publicKey;
    var frames := Hub.EnrollmentFrames(s.hub.cfg.me, mac, key, a);
    Hub.EnrollEffect(s.hub, mac, p, hint, s.now);
    var r := s.(hub := Hub.Enroll(s.hub, mac, p, hint, s.now));
    InstallKeepsGood(s.hub.nodes, mac, p, hint);
    InstallIDs(s.hub.nodes, mac, p, hint);
    forall m | m in r.hub.nodes && r.hub.nodes[m].nodeID > 0
      ensures m in r.sim.nodes && FinalID(r.hub.tx, m, r.sim.nodes[m].nodeID) == r.hub.nodes[m].nodeID
    {
      FinalIDAppend(s.hub.tx, frames, m, s.sim.nodes[m].nodeID);
      EnrollmentSetsID(s.hub.cfg.me, mac, key, a, m, FinalID(s.hub.tx, m, s.sim.nodes[m].nodeID));
    }
  }

  lemma AdminKeepsIdentity(s: System, a: Action)
    requires IdentityInv(s) && (a.AdminApprove? || a.AdminReject?)
    ensures IdentityInv(Apply(s, a))
  {
    if a.mac in s.hub.auth {
      if a.AdminApprove? {
        var h1 := s.hub.(trust := s.hub.trust + [Hub.AdminApproved(a.mac, s.hub.auth[a.mac].publicKey)]);
        EnrollKeepsIdentity(s.(hub := h1), a.mac, a.params, a.hint);
      } else {
        forall m | m in s.hub.nodes && s.hub.nodes[m].nodeID > 0
          ensures FinalID(Apply(s, a).hub.tx, m, s.sim.nodes[m].nodeID) == s.hub.nodes[m].nodeID
        {
          var reject := [RejectMsg(s.hub.cfg.me, a.mac)];
          FinalIDAppend(s.hub.tx, reject, m, s.sim.nodes[m].nodeID);
          FinalIDIgnores(reject, m, FinalID(s.hub.tx, m, s.sim.nodes[m].nodeID));
        }
      }
    }
  }

  // ----- Deliveries -----

  lemma RequestKeepsIdentity(s: System, m: MeshMessage, hint: Bytes)
    requires IdentityInv(s) && IsOwnRequest(s.sim.nodes, m)
    ensures IdentityInv(s.(hub := Hub.HandleEnrollment(s.hub, m, hint, s.now)))
  {
    var mac: Mac, key: Key := m.origin[..6], m.publicKey;
    assert mac == m.origin;
    var h1 := s.hub.(auth := Auth.AddPending(s.hub.auth, mac, key, s.now));
    assert IdentityInv(s.(hub := h1));
    if Auth.IsRepeat(s.hub.auth, mac, key) {
      EnrollKeepsIdentity(s.(hub := h1), mac, Hub.ResendParams(h1.nodes, mac), hint);
    }
  }

  lemma DeliverUpKeepsIdentity(s: System, hints: Hub.Hints)
    requires IdentityInv(s) && s.sim.tx != []
    ensures IdentityInv(Apply(s, DeliverUp(hints)))
  {
    var m := s.sim.tx[0];
    var s1 := s.(sim := s.sim.(tx := s.sim.tx[1..]));
    assert IdentityInv(s1);
    if m.messageType == MSG_ENROLLMENT && m.protoVersion == 5 {
      RequestKeepsIdentity(s1, m, hints.holder);
    } else if m.messageType != MSG_ENROLLMENT {
      RoutineMessage(s.hub, m, hints, s.now);
      RoutineKeepsIdentity(s1, Apply(s, DeliverUp(hints)));
    }
  }

  lemma DeliverDownKeepsHonest(s: System, order: seq<Mac>)
    requires Honest(s) && Enabled(s, DeliverDown(order))
    ensures Honest(Apply(s, DeliverDown(order)))
  {
    FrameEffect(s.sim, s.hub.tx[0], order);
    var r := Apply(s, DeliverDown(order));
    assert forall k | k in s.sim.nodes :: FrameOnNode(s.sim.nodes[k], s.hub.tx[0], k, r.sim.nodes[k]);
    assert forall i :: |s.sim.tx| <= i < |r.sim.tx| ==> r.sim.tx[i].messageType == MSG_ADAPTER_DATA;
    forall i | 0 <= i < |r.sim.tx| && r.sim.tx[i].messageType == MSG_ENROLLMENT
      ensures IsOwnRequest(r.sim.nodes, r.sim.tx[i])
    {
      assert r.sim.tx[i] == s.sim.tx[i];
    }
  }

  lemma DeliverDownKeepsAgreed(s: System, order: seq<Mac>)
    requires Agreed(s) && Enabled(s, DeliverDown(order))
    ensures Agreed(Apply(s, DeliverDown(order)))
  {
    FrameEffect(s.sim, s.hub.tx[0], order);
    var r := Apply(s, DeliverDown(order));
    forall m | m in r.hub.nodes && r.hub.nodes[m].nodeID > 0
      ensures m in r.sim.nodes && FinalID(r.hub.tx, m, r.sim.nodes[m].nodeID) == r.hub.nodes[m].nodeID
    {
      assert FrameOnNode(s.sim.nodes[m], s.hub.tx[0], m, r.sim.nodes[m]);
    }
  }

  lemma DeliverDownKeepsIdentity(s: System, order: seq<Mac>)
    requires IdentityInv(s) && Enabled(s, DeliverDown(order))
    ensures IdentityInv(Apply(s, DeliverDown(order)))
  {
    DeliverDownKeepsHonest(s, order);
    DeliverDownKeepsAgreed(s, order);
  }

  // ----- Steps of the simulator -----

  lemma TickKeepsIdentity(s: System, r: System)
    requires IdentityInv(s) && r.hub == s.hub && TickEffect(s.sim, r.sim)
    ensures IdentityInv(r)
  {
    forall i | 0 <= i < |r.sim.tx| && r.sim.tx[i].messageType == MSG_ENROLLMENT
      ensures IsOwnRequest(r.sim.nodes, r.sim.tx[i])
    {
      if i < |s.sim.tx| {
        assert r.sim.tx[i] == s.sim.tx[i];
      }
    }
  }

  /** Nodes may be added, and anything but their keys and IDs may change. */
  lemma SameIDsKeepIdentity(s: System, r: System)
    requires IdentityInv(s) && r.hub == s.hub && r.sim.tx == s.sim.tx && Keyed(r.sim.nodes)
    requires s.sim.nodes.Keys <= r.sim.nodes.Keys
    requires forall k | k in s.sim.nodes ::
      r.sim.nodes[k].publicKey == s.sim.nodes[k].publicKey && r.sim.nodes[k].nodeID == s.sim.nodes[k].nodeID
    ensures IdentityInv(r)
  {
  }

  lemma FireMotionKeepsIdentity(s: System, a: Action)
    requires IdentityInv(s) && a.FireMotion?
    ensures IdentityInv(Apply(s, a))
  {
    assert TickEffect(s.sim, Apply(s, a).sim);
    TickKeepsIdentity(s, Apply(s, a));
  }

  lemma SimStepKeepsIdentity(s: System, a: Action)
    requires IdentityInv(s) && Enabled(s, a)
    requires a.Tick? || a.Spawn? || a.FireMotion? || a.SetOffline?
    ensures IdentityInv(Apply(s, a))
  {
    var r := Apply(s, a);
    match a
    case Tick(first, second) =>
      TicksEffect(s.sim, first, second, s.now);
      TickKeepsIdentity(s, r);
    case Spawn(_, _, _) => SameIDsKeepIdentity(s, r);
    case FireMotion(_) => FireMotionKeepsIdentity(s, a);
    case SetOffline(_, _) => SameIDsKeepIdentity(s, r);
  }

  lemma IdentityStep(s: System, a: Action)
    requires IdentityInv(s) && Enabled(s, a)
    ensures IdentityInv(Apply(s, a))
  {
    if a.AdminApprove? || a.AdminReject? {
      AdminKeepsIdentity(s, a);
    } else if a.DeliverUp? {
      DeliverUpKeepsIdentity(s, a.hints);
    } else if a.DeliverDown? {
      DeliverDownKeepsIdentity(s, a.order);
    } else if a.Tick? || a.Spawn? || a.FireMotion? || a.SetOffline? {
      SimStepKeepsIdentity(s, a);
    } else {
      RoutineStep(s.hub, a, s.now);
      RoutineKeepsIdentity(s, Apply(s, a));
    }
  }

  // ----- Whole runs -----

  lemma {:induction false} IdentityHolds(states: seq<System>, actions: seq<Action>, i: nat)
    requires IsHistory(states, actions) && i < |states|
    ensures IdentityInv(states[i])
  {
    if i > 0 {
      IdentityHolds(states, actions, i - 1);
      assert IsStep(states, actions, i - 1);
      IdentityStep(states[i - 1], actions[i - 1]);
    }
  }

  /** In particular in every state of every run of the whole system. */
  lemma IDsStayUniqueInHistory(states: seq<System>, actions: seq<Action>, i: nat, id: byte, h1: Bytes, h2: Bytes)
    requires IsHistory(states, actions) && i < |states| && id > 0
    ensures var t := states[i].hub.nodes;
      Nodes.UniqueIDs(t) && Nodes.GetNodeByID(t, id, h1) == Nodes.GetNodeByID(t, id, h2)
  {
    HubRuns.HistoryIsHubRun(states, actions);
    HubRuns.IDsStayUnique(HubRuns.HubStates(states), HubRuns.Inputs(states, actions), i, id, h1, h2);
  }

  /** ID agreement: in every state of every run, a node with a nonzero ID at the hub is a node of the mesh, and
      reading the frames in flight leaves it with exactly that ID; with none in flight it has that ID already. */
  lemma SidesAgree(states: seq<System>, actions: seq<Action>, i: nat, mac: Bytes)
    requires IsHistory(states, actions) && i < |states|
    requires mac in states[i].hub.nodes && states[i].hub.nodes[mac].nodeID > 0
    ensures var s := states[i];
      && mac in s.sim.nodes
      && FinalID(s.hub.tx, mac, s.sim.nodes[mac].nodeID) == s.hub.nodes[mac].nodeID
      && (s.hub.tx == [] ==> s.sim.nodes[mac].nodeID == s.hub.nodes[mac].nodeID)
  {
    IdentityHolds(states, actions, i);
  }

  lemma DrainedSidesAgree(states: seq<System>, actions: seq<Action>, i: nat, mac: Bytes)
    requires IsHistory(states, actions) && i < |states| && states[i].hub.tx == []
    requires mac in states[i].hub.nodes && states[i].hub.nodes[mac].nodeID > 0
    ensures mac in states[i].sim.nodes && states[i].sim.nodes[mac].nodeID == states[i].hub.nodes[mac].nodeID
  {
    SidesAgree(states, actions, i, mac);
  }

  /** FinalID is what delivery does: handing the first frame over moves the node one step along it. */
  lemma DeliveryFollowsFinalID(s: System, order: seq<Mac>, mac: Mac)
    requires Enabled(s, DeliverDown(order)) && mac in s.sim.nodes
    ensures var r := Apply(s, DeliverDown(order));
      mac in r.sim.nodes
      && FinalID(r.hub.tx, mac, r.sim.nodes[mac].nodeID) == FinalID(s.hub.tx, mac, s.sim.nodes[mac].nodeID)
  {
    FrameEffect(s.sim, s.hub.tx[0], order);
    var r := Apply(s, DeliverDown(order));
    assert FrameOnNode(s.sim.nodes[mac], s.hub.tx[0], mac, r.sim.nodes[mac]);
  }
}
