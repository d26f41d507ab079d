/** Trust over whole runs: nobody is accepted into the mesh without an administrator's approval that still stands. What
    concerns the hub alone is proved for every frame it could possibly receive. */
module TrustProofs {
  import opened Bytes
  import opened Wire
  import opened Protocol
  import opened HubEffects
  import opened SimEffects
  import opened HubRuns
  import opened IdentityProofs
  import Auth
  import Clock
  import Hub
  import Nodes

  type Trace = seq<Hub.TrustEvent>

  /** The event is a decision about `mac`: a new request filed, an approval or a rejection. */
  predicate Concerns(e: Hub.TrustEvent, mac: Bytes) {
    match e
    case Requested(m, _) => m == mac
    case AdminApproved(m, _) => m == mac
    case AdminRejected(m) => m == mac
    case Granted(_) => false
  }

  /** The key under which `mac` stands approved after the trace, if it does. */
  function Standing(trace: Trace, mac: Bytes): Option<Key> {
    if trace == [] then None
    else
      var e := trace[|trace| - 1];
      if !Concerns(e, mac) then Standing(trace[..|trace| - 1], mac)
      else if e.AdminApproved? then Some(e.key)
      else None
  }

  /** An approval of `mac` for `key` at position `j`, with no decision about `mac` after it. */
  ghost predicate StandsSince(trace: Trace, mac: Bytes, key: Key, j: nat) {
    && j < |trace| && |mac| == 6 && trace[j] == Hub.AdminApproved(mac, key)
    && forall l :: j < l < |trace| ==> !Concerns(trace[l], mac)
  }

  /** Standing is exactly: some approval for this key was never followed by a request, rejection or other approval. */
  lemma {:induction false} StandingMeans(trace: Trace, mac: Mac, key: Key)
    ensures Standing(trace, mac) == Some(key) <==> exists j :: StandsSince(trace, mac, key, j)
  {
    if trace != [] {
      var init, e := trace[..|trace| - 1], trace[|trace| - 1];
      StandingMeans(init, mac, key);
      if Concerns(e, mac) {
        if e == Hub.AdminApproved(mac, key) {
          assert StandsSince(trace, mac, key, |trace| - 1);
        }
      } else {
        if j :| StandsSince(init, mac, key, j) {
          assert StandsSince(trace, mac, key, j);
        }
        if j :| StandsSince(trace, mac, key, j) {
          assert StandsSince(init, mac, key, j);
        }
      }
    }
  }

  /** An accepting JOIN_ACK is backed: its target stands approved, and its first four data bytes are that key's. */
  ghost predicate Backed(before: Trace, frame: MeshMessage) {
    && |frame.target| == 6
    && exists key :: Standing(before, frame.target) == Some(key) && |frame.data| == MAX_DATA && frame.data[..4] == key[..4]
  }

  ghost predicate AllBacked(trace: Trace) {
    forall i :: 0 <= i < |trace| && trace[i].Granted? ==> Backed(trace[..i], trace[i].frame)
  }

  /** The registry's idea of who is approved, and for which key, is the trace's. */
  ghost predicate RegistryAgrees(auth: Auth.Table, trace: Trace, mac: Mac) {
    Standing(trace, mac) == if mac in auth && auth[mac].status == Auth.Approved then Some(auth[mac].publicKey) else None
  }

  ghost predicate Logged(trace: Trace, frames: seq<MeshMessage>) {
    forall i :: 0 <= i < |frames| && Hub.IsGrant(frames[i]) ==> Hub.Granted(frames[i]) in trace
  }

  ghost predicate HubTrust(h: Hub.State) {
    && (forall mac: Mac :: RegistryAgrees(h.auth, h.trust, mac))
    && AllBacked(h.trust)
    && Logged(h.trust, h.tx)
  }

  ghost predicate WasGranted(trace: Trace, mac: Mac) {
    exists m :: Hub.Granted(m) in trace && m.target == mac
  }

  /** Approvals name the key the node really has. */
  ghost predicate ApprovalsNameNodes(s: System) {
    forall e :: e in s.hub.trust && e.AdminApproved? ==> e.mac in s.sim.nodes && e.key == s.sim.nodes[e.mac].publicKey
  }

  ghost predicate TrustInv(s: System, seeds: set<Mac>) {
    && HubTrust(s.hub) && ApprovalsNameNodes(s)
    && forall m :: m in s.sim.nodes && s.sim.nodes[m].enrolled && m !in seeds ==> WasGranted(s.hub.trust, m)
  }

  // ----- Growing the trace -----

  lemma BackedGrows(trace: Trace, e: Hub.TrustEvent)
    requires AllBacked(trace) && (e.Granted? ==> Backed(trace, e.frame))
    ensures AllBacked(trace + [e])
  {
    var t := trace + [e];
    forall i | 0 <= i < |t| && t[i].Granted? ensures Backed(t[..i], t[i].frame) {
      if i < |trace| {
        assert t[..i] == trace[..i];
      } else {
        assert t[..i] == trace;
      }
    }
  }

  lemma StandingGrows(trace: Trace, e: Hub.TrustEvent, mac: Bytes)
    ensures Standing(trace + [e], mac)
         == if !Concerns(e, mac) then Standing(trace, mac) else if e.AdminApproved? then Some(e.key) else None
  {
    assert (trace + [e])[..|trace|] == trace;
  }

  lemma RoutineKeepsHubTrust(h: Hub.State, r: Hub.State)
    requires HubTrust(h) && Routine(h, r)
    ensures HubTrust(r)
  {
    forall i | 0 <= i < |r.tx| && Hub.IsGrant(r.tx[i]) ensures Hub.Granted(r.tx[i]) in r.trust {
      if i < |h.tx| {
        assert r.tx[i] == h.tx[i];
      }
    }
  }

  /** Filing a request drops whatever stood for the address. */
  lemma RequestKeepsHubTrust(h: Hub.State, mac: Mac, key: Key, now: int)
    requires HubTrust(h) && !Auth.IsRepeat(h.auth, mac, key)
    ensures HubTrust(h.(auth := Auth.AddPending(h.auth, mac, key, now), trust := h.trust + [Hub.Requested(mac, key)]))
  {
    var e := Hub.Requested(mac, key);
    BackedGrows(h.trust, e);
    forall m: Mac ensures RegistryAgrees(Auth.AddPending(h.auth, mac, key, now), h.trust + [e], m) {
      StandingGrows(h.trust, e, m);
      assert RegistryAgrees(h.auth, h.trust, m);
    }
  }

  lemma RejectKeepsHubTrust(h: Hub.State, mac: Mac)
    requires HubTrust(h)
    ensures HubTrust(Hub.RejectByAdmin(h, mac))
  {
    var e := Hub.AdminRejected(mac);
    BackedGrows(h.trust, e);
    var r := Hub.RejectByAdmin(h, mac);
    forall m: Mac ensures RegistryAgrees(r.auth, r.trust, m) {
      StandingGrows(h.trust, e, m);
      assert RegistryAgrees(h.auth, h.trust, m);
    }
  }

  /** An approval, whoever triggers it, of an address that stands approved for the key on record. */
  lemma EnrollKeepsHubTrust(h: Hub.State, mac: Mac, p: Hub.ApprovalParams, hint: Bytes, now: int)
    requires mac in h.auth && Standing(h.trust, mac) == Some(h.auth[mac].publicKey)
    requires forall m: Mac :: m != mac ==> RegistryAgrees(h.auth, h.trust, m)
    requires AllBacked(h.trust) && Logged(h.trust, h.tx)
    ensures HubTrust(Hub.Enroll(h, mac, p, hint, now))
  {
    var key := h.auth[mac].publicKey;
    var ack := JoinAckMsg(h.cfg.me, mac, key);
    var a := Hub.Decide(h.nodes, mac, p, hint);
    Hub.EnrollEffect(h, mac, p, hint, now);
    var r := Hub.Enroll(h, mac, p, hint, now);
    assert Backed(h.trust, ack);
    BackedGrows(h.trust, Hub.Granted(ack));
    forall m: Mac ensures RegistryAgrees(r.auth, r.trust, m) {
      StandingGrows(h.trust, Hub.Granted(ack), m);
      if m != mac {
        assert RegistryAgrees(h.auth, h.trust, m);
      }
    }
    var frames := Hub.EnrollmentFrames(h.cfg.me, mac, key, a);
    forall i | 0 <= i < |frames| && Hub.IsGrant(frames[i]) ensures frames[i] == ack {
    }
  }

  lemma ApproveKeepsHubTrust(h: Hub.State, mac: Mac, p: Hub.ApprovalParams, hint: Bytes, now: int)
    requires HubTrust(h)
    ensures HubTrust(Hub.ApproveByAdmin(h, mac, p, hint, now))
  {
    if mac in h.auth {
      var e := Hub.AdminApproved(mac, h.auth[mac].publicKey);
      BackedGrows(h.trust, e);
      var h1 := h.(trust := h.trust + [e]);
      forall m: Mac ensures Standing(h1.trust, m) == if m == mac then Some(e.key) else Standing(h.trust, m) {
        StandingGrows(h.trust, e, m);
      }
      forall m: Mac | m != mac ensures RegistryAgrees(h1.auth, h1.trust, m) {
        assert RegistryAgrees(h.auth, h.trust, m);
      }
      EnrollKeepsHubTrust(h1, mac, p, hint, now);
    }
  }

  lemma EnrollmentKeepsHubTrust(h: Hub.State, m: MeshMessage, hint: Bytes, now: int)
    requires HubTrust(h)
    ensures HubTrust(Hub.HandleEnrollment(h, m, hint, now))
  {
    if Hub.IsRequest(m) {
      var mac: Mac, key: Key := m.origin[..6], m.publicKey;
      if Auth.IsRepeat(h.auth, mac, key) {
        var h1 := h.(auth := Auth.AddPending(h.auth, mac, key, now));
        forall n: Mac ensures RegistryAgrees(h1.auth, h1.trust, n) {
          assert RegistryAgrees(h.auth, h.trust, n);
        }
        assert RegistryAgrees(h1.auth, h1.trust, mac);
        EnrollKeepsHubTrust(h1, mac, Hub.ResendParams(h1.nodes, mac), hint, now);
      } else {
        RequestKeepsHubTrust(h, mac, key, now);
      }
    }
  }

  lemma MessageKeepsHubTrust(h: Hub.State, m: MeshMessage, hints: Hub.Hints, now: int)
    requires HubTrust(h)
    ensures HubTrust(Hub.HandleMessage(h, m, hints, now))
  {
    if m.messageType == MSG_ENROLLMENT {
      EnrollmentKeepsHubTrust(h, m, hints.holder, now);
    } else {
      RoutineMessage(h, m, hints, now);
      RoutineKeepsHubTrust(h, Hub.HandleMessage(h, m, hints, now));
    }
  }

  lemma CallKeepsHubTrust(h: Hub.State, a: Action, now: int)
    requires HubTrust(h) && Nodes.Keyed(h.nodes) && HubEnabled(h, a)
    ensures HubTrust(HubStep(h, a, now))
  {
    if a.AdminApprove? {
      ApproveKeepsHubTrust(h, a.mac, a.params, a.hint, now);
    } else if a.AdminReject? {
      RejectKeepsHubTrust(h, a.mac);
    } else {
      RoutineStep(h, a, now);
      RoutineKeepsHubTrust(h, HubStep(h, a, now));
    }
  }

  lemma HubTrustStep(h: Hub.State, e: Input)
    requires HubTrust(h) && GoodTable(h.nodes) && Allowed(h, e)
    ensures HubTrust(Step(h, e))
  {
    match e
    case Call(a, now) => CallKeepsHubTrust(h, a, now);
    case Receive(m, hints, now) => MessageKeepsHubTrust(h, m, hints, now);
    case Take =>
      forall mac: Mac ensures RegistryAgrees(Step(h, e).auth, Step(h, e).trust, mac) {
        assert RegistryAgrees(h.auth, h.trust, mac);
      }
  }

  // ----- Runs of the hub -----

  lemma {:induction false} HubTrustHolds(states: seq<Hub.State>, inputs: seq<Input>, i: nat)
    requires IsHubRun(states, inputs) && i < |states|
    ensures HubTrust(states[i])
  {
    if i > 0 {
      HubTrustHolds(states, inputs, i - 1);
      TableStaysGood(states, inputs, i - 1);
      assert IsHubStep(states, inputs, i - 1);
      HubTrustStep(states[i - 1], inputs[i - 1]);
    }
  }

  /** Every accepting JOIN_ACK the hub ever sent, whatever it received: the administrator had approved its target, for the
      key whose first four bytes it carries, and had neither rejected it nor seen it ask with another key since. */
  lemma GrantsFollowApproval(states: seq<Hub.State>, inputs: seq<Input>, i: nat, g: nat)
    requires IsHubRun(states, inputs) && i < |states|
    requires g < |states[i].trust| && states[i].trust[g].Granted?
    ensures var trace := states[i].trust;
      var frame := trace[g].frame;
      exists key, j :: StandsSince(trace[..g], frame.target, key, j)
                    && |frame.data| == MAX_DATA && frame.data[..4] == key[..4]
  {
    HubTrustHolds(states, inputs, i);
    BackedMeansStanding(states[i].trust, g);
  }

  lemma BackedMeansStanding(trace: Trace, g: nat)
    requires AllBacked(trace) && g < |trace| && trace[g].Granted?
    ensures var frame := trace[g].frame;
      exists key, j :: StandsSince(trace[..g], frame.target, key, j)
                    && |frame.data| == MAX_DATA && frame.data[..4] == key[..4]
  {
    var frame := trace[g].frame;
    assert Backed(trace[..g], frame);
    var key :| Standing(trace[..g], frame.target) == Some(key) && frame.data[..4] == key[..4];
    StandingMeans(trace[..g], frame.target, key);
    var j :| StandsSince(trace[..g], frame.target, key, j);
  }

  /** Every accepting JOIN_ACK still in flight is one of the trace's. */
  lemma GrantsInFlightAreLogged(states: seq<Hub.State>, inputs: seq<Input>, i: nat, f: nat)
    requires IsHubRun(states, inputs) && i < |states|
    requires f < |states[i].tx| && Hub.IsGrant(states[i].tx[f])
    ensures Hub.Granted(states[i].tx[f]) in states[i].trust
  {
    HubTrustHolds(states, inputs, i);
  }

  /** The registry holds a node approved for a key exactly when the administrator's last word says so, and no request with
      another key came after it. */
  lemma RegistryIsAdminsLastWord(states: seq<Hub.State>, inputs: seq<Input>, i: nat, mac: Mac, key: Key)
    requires IsHubRun(states, inputs) && i < |states|
    ensures Auth.IsRepeat(states[i].auth, mac, key) <==> exists j :: StandsSince(states[i].trust, mac, key, j)
  {
    HubTrustHolds(states, inputs, i);
    assert RegistryAgrees(states[i].auth, states[i].trust, mac);
    StandingMeans(states[i].trust, mac, key);
  }

  // ----- How an approval is lost -----

  /** A well-formed request for `mac` with a key other than `key`. */
  predicate IsRekey(m: MeshMessage, mac: Mac, key: Key) {
    m.protoVersion == 5 && m.messageType == MSG_ENROLLMENT && Hub.IsRequest(m) && m.origin[..6] == mac && m.publicKey != key
  }

  lemma EnrollKeepsApproval(h: Hub.State, from: Mac, p: Hub.ApprovalParams, hint: Bytes, now: int, mac: Mac, key: Key)
    requires from in h.auth && Auth.IsRepeat(h.auth, mac, key)
    ensures Auth.IsRepeat(Hub.Enroll(h, from, p, hint, now).auth, mac, key)
  {
    Hub.EnrollEffect(h, from, p, hint, now);
  }

  lemma MessageDropsApproval(h: Hub.State, m: MeshMessage, hints: Hub.Hints, now: int, mac: Mac, key: Key)
    requires Auth.IsRepeat(h.auth, mac, key)
    ensures !Auth.IsRepeat(Hub.HandleMessage(h, m, hints, now).auth, mac, key) <==> IsRekey(m, mac, key)
  {
    if m.messageType != MSG_ENROLLMENT {
      RoutineMessage(h, m, hints, now);
    } else if m.protoVersion == 5 && Hub.IsRequest(m) {
      var from: Mac, k: Key := m.origin[..6], m.publicKey;
      if Auth.IsRepeat(h.auth, from, k) {
        var h1 := h.(auth := Auth.AddPending(h.auth, from, k, now));
        EnrollKeepsApproval(h1, from, Hub.ResendParams(h1.nodes, from), hints.holder, now, mac, key);
      }
    }
  }

  lemma CallDropsApproval(h: Hub.State, a: Action, now: int, mac: Mac, key: Key)
    requires Auth.IsRepeat(h.auth, mac, key) && HubEnabled(h, a) && Nodes.Keyed(h.nodes)
    ensures !Auth.IsRepeat(HubStep(h, a, now).auth, mac, key) <==> a == AdminReject(mac)
  {
    if a.AdminApprove? {
      if a.mac in h.auth {
        var h1 := h.(trust := h.trust + [Hub.AdminApproved(a.mac, h.auth[a.mac].publicKey)]);
        EnrollKeepsApproval(h1, a.mac, a.params, a.hint, now, mac, key);
      }
    } else if !a.AdminReject? {
      RoutineStep(h, a, now);
    }
  }

  /** In any run of the hub a standing approval ends with a step exactly when that step is the administrator's rejection of
      that node, or the receipt of a well-formed request for it with another key. */
  lemma ApprovalIsLostBy(states: seq<Hub.State>, inputs: seq<Input>, i: nat, mac: Mac, key: Key)
    requires IsHubRun(states, inputs) && i < |inputs|
    requires Auth.IsRepeat(states[i].auth, mac, key)
    ensures !Auth.IsRepeat(states[i + 1].auth, mac, key) <==>
      match inputs[i]
      case Call(a, _) => a == AdminReject(mac)
      case Receive(m, _, _) => IsRekey(m, mac, key)
      case Take => false
  {
    TableStaysGood(states, inputs, i);
    assert IsHubStep(states, inputs, i);
    match inputs[i]
    case Call(a, now) => CallDropsApproval(states[i], a, now, mac, key);
    case Receive(m, hints, now) => MessageDropsApproval(states[i], m, hints, now, mac, key);
    case Take =>
  }

  /** A changed key drops a standing approval, and the node is not told. */
  lemma RekeyIsPending(h: Hub.State, m: MeshMessage, hints: Hub.Hints, now: int, mac: Mac, key: Key)
    requires HubTrust(h) && Auth.IsRepeat(h.auth, mac, key) && IsRekey(m, mac, key)
    ensures Standing(h.trust, mac) == Some(key)
    ensures var r := Hub.HandleMessage(h, m, hints, now);
      && Standing(r.trust, mac) == None && r.tx == h.tx && r.nodes == h.nodes
      && r.auth == h.auth[mac := Auth.NodeAuth(mac, m.publicKey, Auth.Pending, Clock.At(now), Clock.Never)]
  {
    assert RegistryAgrees(h.auth, h.trust, mac);
    StandingGrows(h.trust, Hub.Requested(mac, m.publicKey), mac);
  }

  /** Such a run exists for every node and every two keys: it asks, is approved, and asks again with the other key. */
  lemma RekeyRun(cfg: Hub.Config, mac: Mac, key: Key, other: Key) returns (states: seq<Hub.State>, inputs: seq<Input>)
    requires key != other
    ensures IsHubRun(states, inputs) && |inputs| == 3
    ensures Auth.IsRepeat(states[2].auth, mac, key) && Standing(states[2].trust, mac) == Some(key)
    ensures inputs[2].Receive? && IsRekey(inputs[2].m, mac, key)
    ensures Standing(states[3].trust, mac) == None && mac in states[3].auth && states[3].auth[mac].status == Auth.Pending
  {
    var hints := Hub.Hints([], Zeros(16));
    var h0 := Hub.Init(cfg);
    var e0 := Receive(EnrollmentMsg(mac, [], key), hints, 0);
    var h1 := Step(h0, e0);
    assert mac[..6] == mac;
    assert h1.auth == map[mac := Auth.NodeAuth(mac, key, Auth.Pending, Clock.At(0), Clock.Never)];
    var e1 := Call(AdminApprove(mac, Hub.ApprovalParams(0, "", "", ""), []), 0);
    var h2 := Step(h1, e1);
    Hub.EnrollEffect(h1.(trust := h1.trust + [Hub.AdminApproved(mac, key)]), mac, e1.a.params, [], 0);
    var e2 := Receive(EnrollmentMsg(mac, [], other), hints, 0);
    states, inputs := [h0, h1, h2, Step(h2, e2)], [e0, e1, e2];
    assert IsHubStep(states, inputs, 0) && IsHubStep(states, inputs, 1) && IsHubStep(states, inputs, 2);
    HubTrustHolds(states, inputs, 2);
    RekeyIsPending(h2, e2.m, hints, 0, mac, key);
  }

  // ----- Steps of the system -----

  lemma GrantsGrow(t: Trace, u: Trace, m: Mac)
    requires t <= u && WasGranted(t, m)
    ensures WasGranted(u, m)
  {
    var f :| Hub.Granted(f) in t && f.target == m;
    var i :| 0 <= i < |t| && t[i] == Hub.Granted(f);
    assert u[i] == Hub.Granted(f);
  }

  lemma HubStepKeepsTrust(s: System, r: System, seeds: set<Mac>)
    requires TrustInv(s, seeds) && HubTrust(r.hub) && s.hub.trust <= r.hub.trust
    requires SameNodes(s.sim.nodes, r.sim.nodes)
    requires forall i :: |s.hub.trust| <= i < |r.hub.trust| && r.hub.trust[i].AdminApproved? ==>
      r.hub.trust[i].mac in s.sim.nodes && r.hub.trust[i].key == s.sim.nodes[r.hub.trust[i].mac].publicKey
    ensures TrustInv(r, seeds)
  {
    forall m | m in r.sim.nodes && r.sim.nodes[m].enrolled && m !in seeds ensures WasGranted(r.hub.trust, m) {
      GrantsGrow(s.hub.trust, r.hub.trust, m);
    }
    forall e | e in r.hub.trust && e.AdminApproved?
      ensures e.mac in r.sim.nodes && e.key == r.sim.nodes[e.mac].publicKey
    {
      var i :| 0 <= i < |r.hub.trust| && r.hub.trust[i] == e;
      if i < |s.hub.trust| {
        assert s.hub.trust[i] == e;
      }
    }
  }

  lemma DeliverDownKeepsTrust(s: System, order: seq<Mac>, seeds: set<Mac>)
    requires TrustInv(s, seeds) && Enabled(s, DeliverDown(order))
    ensures TrustInv(Apply(s, DeliverDown(order)), seeds)
  {
    var m := s.hub.tx[0];
    FrameEffect(s.sim, m, order);
    var r := Apply(s, DeliverDown(order));
    forall k | k in r.sim.nodes && r.sim.nodes[k].enrolled && k !in seeds ensures WasGranted(r.hub.trust, k) {
      assert FrameOnNode(s.sim.nodes[k], m, k, r.sim.nodes[k]);
      if !s.sim.nodes[k].enrolled {
        assert Enrolls(m, k) && Hub.Granted(m) in s.hub.trust;
        var i :| 0 <= i < |s.hub.trust| && s.hub.trust[i] == Hub.Granted(m);
        assert Backed(s.hub.trust[..i], m) && m.target[..6] == m.target;
      }
    }
    forall k | k in s.sim.nodes ensures r.sim.nodes[k].publicKey == s.sim.nodes[k].publicKey {
      assert FrameOnNode(s.sim.nodes[k], m, k, r.sim.nodes[k]);
    }
  }

  lemma SimStepKeepsTrust(s: System, a: Action, seeds: set<Mac>)
    requires TrustInv(s, seeds) && Keyed(s.sim.nodes) && Enabled(s, a)
    requires a.Tick? || a.Spawn? || a.FireMotion? || a.SetOffline?
    ensures TrustInv(Apply(s, a), seeds)
  {
    if a.Tick? {
      TicksEffect(s.sim, a.first, a.second, s.now);
    }
  }

  lemma MessageApprovesNobody(h: Hub.State, m: MeshMessage, hints: Hub.Hints, now: int)
    ensures var r := Hub.HandleMessage(h, m, hints, now);
      h.trust <= r.trust && forall i :: |h.trust| <= i < |r.trust| ==> !r.trust[i].AdminApproved?
  {
    if m.messageType != MSG_ENROLLMENT {
      RoutineMessage(h, m, hints, now);
    } else if Hub.IsRequest(m) {
      var mac: Mac, key: Key := m.origin[..6], m.publicKey;
      var h1 := h.(auth := Auth.AddPending(h.auth, mac, key, now));
      Hub.EnrollEffect(h1, mac, Hub.ResendParams(h1.nodes, mac), hints.holder, now);
    }
  }

  lemma CallApprovesOnRecord(h: Hub.State, a: Action, now: int)
    requires HubEnabled(h, a) && Nodes.Keyed(h.nodes)
    ensures var r := HubStep(h, a, now);
      h.trust <= r.trust && forall i :: |h.trust| <= i < |r.trust| && r.trust[i].AdminApproved? ==>
        r.trust[i].mac in h.auth && r.trust[i].key == h.auth[r.trust[i].mac].publicKey
  {
    if a.AdminApprove? {
      if a.mac in h.auth {
        var h1 := h.(trust := h.trust + [Hub.AdminApproved(a.mac, h.auth[a.mac].publicKey)]);
        Hub.EnrollEffect(h1, a.mac, a.params, a.hint, now);
      }
    } else if !a.AdminReject? {
      RoutineStep(h, a, now);
    }
  }

  /** A step appends to the trace at most one approval, and that for the key on record. */
  lemma ApprovalsAreOnRecord(h: Hub.State, e: Input)
    requires Allowed(h, e) && Nodes.Keyed(h.nodes)
    ensures var r := Step(h, e);
      h.trust <= r.trust && forall i :: |h.trust| <= i < |r.trust| && r.trust[i].AdminApproved? ==>
        r.trust[i].mac in h.auth && r.trust[i].key == h.auth[r.trust[i].mac].publicKey
  {
    match e
    case Call(a, now) => CallApprovesOnRecord(h, a, now);
    case Receive(m, hints, now) => MessageApprovesNobody(h, m, hints, now);
    case Take =>
  }

  lemma TrustStep(s: System, a: Action, seeds: set<Mac>)
    requires TrustInv(s, seeds) && IdentityInv(s) && Enabled(s, a)
    ensures TrustInv(Apply(s, a), seeds)
  {
    if a.DeliverDown? {
      DeliverDownKeepsTrust(s, a.order, seeds);
    } else if a.Tick? || a.Spawn? || a.FireMotion? || a.SetOffline? {
      SimStepKeepsTrust(s, a, seeds);
    } else {
      InputIsStep(s, a);
      HubTrustStep(s.hub, InputOf(s, a));
      ApprovalsAreOnRecord(s.hub, InputOf(s, a));
      HubStepKeepsTrust(s, Apply(s, a), seeds);
    }
  }

  // ----- Whole runs -----

  function Seeds(s: System): set<Mac> {
    set m | m in s.sim.nodes && s.sim.nodes[m].enrolled
  }

  lemma TrustStepAt(states: seq<System>, actions: seq<Action>, i: nat, seeds: set<Mac>)
    requires IsHistory(states, actions) && i < |actions| && TrustInv(states[i], seeds)
    ensures TrustInv(states[i + 1], seeds)
  {
    IdentityHolds(states, actions, i);
    assert IsStep(states, actions, i);
    TrustStep(states[i], actions[i], seeds);
  }

  lemma TrustStart(s: System)
    requires Start(s)
    ensures TrustInv(s, Seeds(s))
  {
  }

  lemma {:induction false} TrustHolds(states: seq<System>, actions: seq<Action>, i: nat)
    requires IsHistory(states, actions) && i < |states|
    ensures TrustInv(states[i], Seeds(states[0]))
  {
    if i == 0 {
      TrustStart(states[0]);
    } else {
      TrustHolds(states, actions, i - 1);
      TrustStepAt(states, actions, i - 1, Seeds(states[0]));
    }
  }

  /** What is proved of the hub's runs holds of whole histories. */
  lemma GrantsFollowApprovalInHistory(states: seq<System>, actions: seq<Action>, i: nat, g: nat)
    requires IsHistory(states, actions) && i < |states|
    requires g < |states[i].hub.trust| && states[i].hub.trust[g].Granted?
    ensures var trace := states[i].hub.trust;
      var frame := trace[g].frame;
      exists key, j :: StandsSince(trace[..g], frame.target, key, j)
                    && |frame.data| == MAX_DATA && frame.data[..4] == key[..4]
  {
    HistoryIsHubRun(states, actions);
    GrantsFollowApproval(HubStates(states), Inputs(states, actions), i, g);
  }

  lemma RegistryIsAdminsLastWordInHistory(states: seq<System>, actions: seq<Action>, i: nat, mac: Mac, key: Key)
    requires IsHistory(states, actions) && i < |states|
    ensures Auth.IsRepeat(states[i].hub.auth, mac, key) <==> exists j :: StandsSince(states[i].hub.trust, mac, key, j)
  {
    HistoryIsHubRun(states, actions);
    RegistryIsAdminsLastWord(HubStates(states), Inputs(states, actions), i, mac, key);
  }

  lemma {:induction false} StandingNeedsApproval(trace: Trace, mac: Mac, key: Key)
    requires Standing(trace, mac) == Some(key)
    ensures Hub.AdminApproved(mac, key) in trace
  {
    if Concerns(trace[|trace| - 1], mac) {
      assert trace[|trace| - 1] == Hub.AdminApproved(mac, key);
    } else {
      StandingNeedsApproval(trace[..|trace| - 1], mac, key);
    }
  }

  lemma ApprovedForOwnKey(s: System, seeds: set<Mac>, g: nat, key: Key)
    requires TrustInv(s, seeds) && g < |s.hub.trust| && s.hub.trust[g].Granted? && |s.hub.trust[g].frame.target| == 6
    requires Standing(s.hub.trust[..g], s.hub.trust[g].frame.target) == Some(key)
    ensures s.hub.trust[g].frame.target in s.sim.nodes && key == s.sim.nodes[s.hub.trust[g].frame.target].publicKey
  {
    var mac: Mac := s.hub.trust[g].frame.target;
    StandingNeedsApproval(s.hub.trust[..g], mac, key);
    assert Hub.AdminApproved(mac, key) in s.hub.trust;
  }

  /** A node that was not enrolled from the start is enrolled only if it was sent an accepting JOIN_ACK while an approval
      by the administrator stood for its own key. */
  lemma EnrolledMeansApproved(states: seq<System>, actions: seq<Action>, i: nat, mac: Mac)
    requires IsHistory(states, actions) && i < |states|
    requires mac in states[i].sim.nodes && states[i].sim.nodes[mac].enrolled && mac !in Seeds(states[0])
    ensures var trace := states[i].hub.trust;
      exists g, j :: 0 <= g < |trace| && trace[g].Granted? && trace[g].frame.target == mac
                  && StandsSince(trace[..g], mac, states[i].sim.nodes[mac].publicKey, j)
  {
    TrustHolds(states, actions, i);
    var trace := states[i].hub.trust;
    var f :| Hub.Granted(f) in trace && f.target == mac;
    var g :| 0 <= g < |trace| && trace[g] == Hub.Granted(f);
    assert Backed(trace[..g], f);
    var key :| Standing(trace[..g], mac) == Some(key);
    ApprovedForOwnKey(states[i], Seeds(states[0]), g, key);
    StandingMeans(trace[..g], mac, key);
    var j :| StandsSince(trace[..g], mac, key, j);
  }
}
