/** What one approval does to the registry and the link: hotswap, and the repeat request of an approved node. */
module EnrollmentProofs {
  import opened Bytes
  import opened Clock
  import opened MacText
  import opened Wire
  import opened HubEffects
  import opened HubRuns
  import opened Protocol
  import Nodes
  import Auth
  import Hub

  /** Approving with an ID that another live node holds. The new node takes the ID and the fields left blank; the old
      entry is kept without an ID, marked replaced by the new node; no third entry changes. */
  lemma HotswapTable(t: Nodes.Table, mac: Mac, p: Hub.ApprovalParams, holder: Bytes, hint: Bytes)
    requires GoodTable(t) && p.nodeID > 0 && Nodes.Holds(t, holder, p.nodeID) && holder != mac
    ensures var a := Hub.Decide(t, mac, p, hint);
      var u := Hub.Install(t, mac, a);
      var was := t[holder];
      && u.Keys == t.Keys + {mac}
      && u[mac] == Nodes.Entry(t, mac).(nodeID := p.nodeID,
                                        name := if p.name == "" then was.name else p.name,
                                        zone := if p.zone == "" then was.zone else p.zone)
      && u[holder] == was.(nodeID := 0, status := Nodes.REPLACED, replacedBy := MacToString(mac))
      && (forall k :: k in t && k != mac && k != holder ==> u[k] == t[k])
      && a.nodeID == p.nodeID
      && a.inherited == if p.typeName == "" then was.adapterType else TYPE_UNKNOWN
  {
    assert Nodes.GetNodeByID(t, p.nodeID, hint) == Some(holder);
    assert t[holder].name != "";
  }

  lemma HotswapOutcome(me: Identity, t: Nodes.Table, mac: Mac, p: Hub.ApprovalParams, key: Key, holder: Bytes, hint: Bytes)
    requires GoodTable(t) && p.nodeID > 0 && Nodes.Holds(t, holder, p.nodeID) && holder != mac
    ensures var oldType := t[holder].adapterType;
      Hub.EnrollmentFrames(me, mac, key, Hub.Decide(t, mac, p, hint))
        == [JoinAckMsg(me, mac, key), NodeIdSetMsg(me, mac, p.nodeID)]
           + (if p.typeName == "" && oldType != TYPE_UNKNOWN then [ConfigSetMsg(me, mac, oldType)] else [])
  {
    HotswapTable(t, mac, p, holder, hint);
  }

  /** On the link a hotswap is the JOIN_ACK, the ID, and then a CONFIG_SET exactly when the type was left blank and the
      old type was known. */
  lemma HotswapFrames(h: Hub.State, mac: Mac, p: Hub.ApprovalParams, holder: Bytes, hint: Bytes, now: int)
    requires GoodTable(h.nodes) && mac in h.auth
    requires p.nodeID > 0 && Nodes.Holds(h.nodes, holder, p.nodeID) && holder != mac
    ensures var r := Hub.ApproveByAdmin(h, mac, p, hint, now);
      var oldType := h.nodes[holder].adapterType;
      && r.nodes == Hub.Install(h.nodes, mac, Hub.Decide(h.nodes, mac, p, hint))
      && r.tx == h.tx
           + ([JoinAckMsg(h.cfg.me, mac, h.auth[mac].publicKey), NodeIdSetMsg(h.cfg.me, mac, p.nodeID)]
              + (if p.typeName == "" && oldType != TYPE_UNKNOWN then [ConfigSetMsg(h.cfg.me, mac, oldType)] else []))
  {
    HotswapOutcome(h.cfg.me, h.nodes, mac, p, h.auth[mac].publicKey, holder, hint);
    var h1 := h.(trust := h.trust + [Hub.AdminApproved(mac, h.auth[mac].publicKey)]);
    Hub.EnrollEffect(h1, mac, p, hint, now);
  }

  /** After an approval the ID leads back to the approved node, unless its entry was marked replaced before: that mark
      is never cleared, and then the ID leads nowhere. */
  lemma ApprovedIDLookup(t: Nodes.Table, mac: Mac, p: Hub.ApprovalParams, hint: Bytes, h2: Bytes)
    requires GoodTable(t)
    ensures var a := Hub.Decide(t, mac, p, hint);
      var u := Hub.Install(t, mac, a);
      a.nodeID > 0 ==>
        Nodes.GetNodeByID(u, a.nodeID, h2) == if Nodes.Entry(t, mac).status == Nodes.REPLACED then None else Some(mac)
  {
    var a := Hub.Decide(t, mac, p, hint);
    var u := Hub.Install(t, mac, a);
    InstallKeepsGood(t, mac, p, hint);
    if a.nodeID > 0 {
      if Nodes.Entry(t, mac).status != Nodes.REPLACED {
        assert Nodes.Holds(u, mac, a.nodeID);
      } else {
        ReplacedIDLeadsNowhere(t, mac, p, hint);
      }
    }
  }

  lemma ReplacedIDLeadsNowhere(t: Nodes.Table, mac: Mac, p: Hub.ApprovalParams, hint: Bytes)
    requires GoodTable(t) && Nodes.Entry(t, mac).status == Nodes.REPLACED
    ensures var a := Hub.Decide(t, mac, p, hint);
      a.nodeID > 0 ==> forall k :: !Nodes.Holds(Hub.Install(t, mac, a), k, a.nodeID)
  {
    var a := Hub.Decide(t, mac, p, hint);
    var u := Hub.Install(t, mac, a);
    if a.nodeID > 0 {
      forall k ensures !Nodes.Holds(u, k, a.nodeID) {
        if k != mac && Nodes.Holds(u, k, a.nodeID) {
          assert Nodes.Holds(t, k, a.nodeID) && Nodes.InUse(t, a.nodeID);
        }
      }
    }
  }

  // ----- The self-heal path -----

  /** A repeat request finds nothing to change: the node has an entry, and either an ID that no other live entry
      holds, or no ID, a name, and no free ID left. */
  ghost predicate Settled(t: Nodes.Table, mac: Mac) {
    && mac in t
    && if t[mac].nodeID > 0 then forall k :: Nodes.Holds(t, k, t[mac].nodeID) ==> k == mac
       else Nodes.NextFree(t) == 0 && t[mac].name != ""
  }

  lemma ResendDecision(t: Nodes.Table, mac: Mac, hint: Bytes)
    requires GoodTable(t)
    ensures var a := Hub.Decide(t, mac, Hub.ResendParams(t, mac), hint);
      && a.inherited == TYPE_UNKNOWN
      && (a.displaced.Some? ==> mac in t && t[mac].nodeID > 0 && Nodes.Holds(t, a.displaced.value, t[mac].nodeID)
                                && a.displaced.value != mac)
      && (mac in t && t[mac].nodeID > 0 ==> a.nodeID == t[mac].nodeID && a.name == t[mac].name
                                            && (a.displaced.None? ==> a.zone == t[mac].zone)
                                            && (a.displaced.None? <==> Settled(t, mac)))
      && (!(mac in t && t[mac].nodeID > 0) ==> a.nodeID == Nodes.NextFree(t) && a.displaced.None?)
      && (mac in t && t[mac].nodeID == 0 ==> a.name == t[mac].name && a.zone == t[mac].zone)
  {
  }

  lemma ResendTable(t: Nodes.Table, mac: Mac, hint: Bytes)
    requires GoodTable(t)
    ensures Hub.Install(t, mac, Hub.Decide(t, mac, Hub.ResendParams(t, mac), hint)) == t <==> Settled(t, mac)
  {
    var a := Hub.Decide(t, mac, Hub.ResendParams(t, mac), hint);
    var u := Hub.Install(t, mac, a);
    ResendDecision(t, mac, hint);
    assert |MacToString(mac)| > 0;
    if a.displaced.Some? {
      assert u[a.displaced.value].nodeID == 0;
    } else if Settled(t, mac) {
      assert u == t[mac := t[mac]];
    } else {
      assert mac !in t || u[mac].nodeID != t[mac].nodeID || u[mac].name != t[mac].name;
    }
  }

  /** A request is a repeat of an approved one. */
  ghost predicate IsRepeatRequest(h: Hub.State, m: MeshMessage) {
    Hub.IsRequest(m) && Auth.IsRepeat(h.auth, m.origin[..6], m.publicKey)
  }

  /** What a repeat does, in terms of the decision it makes. */
  lemma RepeatEffect(h: Hub.State, m: MeshMessage, hint: Bytes, now: int)
    requires GoodTable(h.nodes) && IsRepeatRequest(h, m)
    ensures var mac: Mac := m.origin[..6];
      var a := Hub.Decide(h.nodes, mac, Hub.ResendParams(h.nodes, mac), hint);
      var r := Hub.HandleEnrollment(h, m, hint, now);
      && r.nodes == Hub.Install(h.nodes, mac, a)
      && r.auth == h.auth[mac := h.auth[mac].(receivedAt := At(now), approvedAt := At(now))]
      && r.tx == h.tx + Hub.EnrollmentFrames(h.cfg.me, mac, m.publicKey, a)
      && r.trust == h.trust + [Hub.Granted(JoinAckMsg(h.cfg.me, mac, m.publicKey))]
  {
    var mac: Mac, key: Key := m.origin[..6], m.publicKey;
    var h1 := h.(auth := Auth.AddPending(h.auth, mac, key, now));
    Hub.EnrollEffect(h1, mac, Hub.ResendParams(h1.nodes, mac), hint, now);
  }

  /** A repeat request leaves the registry unchanged exactly when the node is settled. */
  lemma ResendIsIdempotent(h: Hub.State, m: MeshMessage, hint: Bytes, now: int)
    requires GoodTable(h.nodes) && IsRepeatRequest(h, m)
    ensures Hub.HandleEnrollment(h, m, hint, now).nodes == h.nodes <==> Settled(h.nodes, m.origin[..6])
  {
    RepeatEffect(h, m, hint, now);
    ResendTable(h.nodes, m.origin[..6], hint);
  }

  lemma ResendOutcome(me: Identity, t: Nodes.Table, mac: Mac, key: Key, hint: Bytes)
    requires GoodTable(t)
    ensures var a := Hub.Decide(t, mac, Hub.ResendParams(t, mac), hint);
      var u := Hub.Install(t, mac, a);
      && mac in u
      && Hub.EnrollmentFrames(me, mac, key, a)
         == [JoinAckMsg(me, mac, key)] + (if u[mac].nodeID > 0 then [NodeIdSetMsg(me, mac, u[mac].nodeID)] else [])
      && (mac in t && t[mac].nodeID > 0 ==> u[mac].nodeID == t[mac].nodeID)
  {
    ResendDecision(t, mac, hint);
    InstallIDs(t, mac, Hub.ResendParams(t, mac), hint);
  }

  /** Settled or not, it changes only the times of the trust record, and sends a JOIN_ACK for the key, then the node's
      ID if it has one, and nothing else; an ID the node had before is the ID it keeps. */
  lemma ResendFrames(h: Hub.State, m: MeshMessage, hint: Bytes, now: int)
    requires GoodTable(h.nodes) && IsRepeatRequest(h, m)
    ensures var mac: Mac := m.origin[..6];
      var r := Hub.HandleEnrollment(h, m, hint, now);
      && r.auth == h.auth[mac := h.auth[mac].(receivedAt := At(now), approvedAt := At(now))]
      && mac in r.nodes
      && r.tx == h.tx + ([JoinAckMsg(h.cfg.me, mac, m.publicKey)]
                         + (if r.nodes[mac].nodeID > 0 then [NodeIdSetMsg(h.cfg.me, mac, r.nodes[mac].nodeID)] else []))
      && (mac in h.nodes && h.nodes[mac].nodeID > 0 ==> r.nodes[mac].nodeID == h.nodes[mac].nodeID)
  {
    RepeatEffect(h, m, hint, now);
    ResendOutcome(h.cfg.me, h.nodes, m.origin[..6], m.publicKey, hint);
  }

  /** A node that is not replaced and has an ID is settled, so its repeats change nothing. */
  lemma LiveNodesAreSettled(t: Nodes.Table, mac: Mac)
    requires GoodTable(t) && mac in t && t[mac].nodeID > 0 && t[mac].status != Nodes.REPLACED
    ensures Settled(t, mac)
  {
    assert Nodes.Holds(t, mac, t[mac].nodeID);
  }

  /** A replaced node that was given an ID again, while a live node holds the same ID: its repeat request marks the
      live node replaced, although no administrator asked for that. */
  lemma ReplacedNodeEvicts(h: Hub.State, m: MeshMessage, victim: Bytes, hint: Bytes, now: int)
    requires GoodTable(h.nodes) && IsRepeatRequest(h, m)
    requires m.origin[..6] in h.nodes && h.nodes[m.origin[..6]].nodeID > 0 && victim != m.origin[..6]
    requires Nodes.Holds(h.nodes, victim, h.nodes[m.origin[..6]].nodeID)
    ensures var r := Hub.HandleEnrollment(h, m, hint, now);
      victim in r.nodes && r.nodes[victim].status == Nodes.REPLACED && r.nodes[victim].nodeID == 0
  {
    var mac: Mac := m.origin[..6];
    RepeatEffect(h, m, hint, now);
    assert Nodes.IsLookup(h.nodes, h.nodes[mac].nodeID, Some(victim));
    assert Hub.Decide(h.nodes, mac, Hub.ResendParams(h.nodes, mac), hint).displaced == Some(victim);
  }

  /** The registry after approving `mac` with an explicit ID and nothing else. */
  ghost function Given(t: Nodes.Table, mac: Mac, nodeID: byte): Nodes.Table {
    Hub.Install(t, mac, Hub.Decide(t, mac, Hub.ApprovalParams(nodeID, "", "", ""), []))
  }

  ghost function Repeated(t: Nodes.Table, mac: Mac): Nodes.Table {
    Hub.Install(t, mac, Hub.Decide(t, mac, Hub.ResendParams(t, mac), []))
  }

  lemma GivenEffect(t: Nodes.Table, mac: Mac, id: byte)
    requires GoodTable(t) && id > 0
    ensures var u := Given(t, mac, id);
      && GoodTable(u) && u.Keys == t.Keys + {mac}
      && u[mac].nodeID == id && u[mac].status == Nodes.Entry(t, mac).status
      && forall k :: k in t && k != mac ==>
        if Nodes.Holds(t, k, id) then u[k].nodeID == 0 && u[k].status == Nodes.REPLACED else u[k] == t[k]
  {
    InstallKeepsGood(t, mac, Hub.ApprovalParams(id, "", "", ""), []);
  }

  lemma RepeatedWithoutID(t: Nodes.Table, mac: Mac)
    requires GoodTable(t) && mac in t && t[mac].nodeID == 0 && !Nodes.InUse(t, 1)
    ensures var u := Repeated(t, mac);
      && GoodTable(u) && u.Keys == t.Keys && u[mac].nodeID == 1 && u[mac].status == t[mac].status
      && forall k :: k in t && k != mac ==> u[k] == t[k]
  {
    ResendDecision(t, mac, []);
    InstallKeepsGood(t, mac, Hub.ResendParams(t, mac), []);
  }

  lemma HotswappedPair(a: Mac, b: Mac)
    requires a != b
    ensures var t := Given(Given(map[], a, 2), b, 2);
      GoodTable(t) && t.Keys == {a, b} && t[a].nodeID == 0 && t[a].status == Nodes.REPLACED && t[b].nodeID == 2
  {
    var t1 := Given(map[], a, 2);
    GivenEffect(map[], a, 2);
    assert Nodes.Holds(t1, a, 2);
    GivenEffect(t1, b, 2);
  }

  lemma ReplacedGetsIDAgain(a: Mac, b: Mac)
    requires a != b
    ensures var t := Repeated(Given(Given(map[], a, 2), b, 2), a);
      GoodTable(t) && t.Keys == {a, b} && t[a].nodeID == 1 && t[a].status == Nodes.REPLACED && t[b].nodeID == 2
  {
    var t := Given(Given(map[], a, 2), b, 2);
    HotswappedPair(a, b);
    assert !Nodes.InUse(t, 1);
    RepeatedWithoutID(t, a);
  }

  /** On tables, such an eviction comes about like this: approve A as 2, hotswap B in as 2, let A repeat its request, which
      gives it ID 1 although it is replaced; approve C as 1, which finds no live holder; then A's next repeat evicts C. */
  lemma EvictionOnTables(a: Mac, b: Mac, c: Mac)
    requires a != b && b != c && a != c
    ensures var t := Given(Repeated(Given(Given(map[], a, 2), b, 2), a), c, 1);
      && GoodTable(t) && Nodes.Holds(t, c, 1)
      && c in Repeated(t, a) && Repeated(t, a)[c].status == Nodes.REPLACED && Repeated(t, a)[c].nodeID == 0
  {
    ReplacedGetsIDAgain(a, b);
    var t3 := Repeated(Given(Given(map[], a, 2), b, 2), a);
    var t4 := Given(t3, c, 1);
    GivenEffect(t3, c, 1);
    assert Nodes.Holds(t4, c, 1) && !Nodes.Holds(t3, a, 1);
    RepeatedEvicts(t4, a, c);
  }

  lemma RepeatedEvicts(t: Nodes.Table, mac: Mac, victim: Mac)
    requires GoodTable(t) && mac in t && t[mac].nodeID > 0 && victim != mac && Nodes.Holds(t, victim, t[mac].nodeID)
    ensures victim in Repeated(t, mac) && Repeated(t, mac)[victim].status == Nodes.REPLACED
    ensures Repeated(t, mac)[victim].nodeID == 0
  {
    assert Nodes.IsLookup(t, t[mac].nodeID, Some(victim));
    assert Hub.Decide(t, mac, Hub.ResendParams(t, mac), []).displaced == Some(victim);
  }

  // ----- The eviction as a run of the hub -----

  /** The node asks to join. */
  function Asks(mac: Mac, key: Key): Input {
    Receive(EnrollmentMsg(mac, [], key), Hub.Hints([], Zeros(16)), 0)
  }

  /** The administrator approves the node with an explicit ID. */
  function Approves(mac: Mac, id: byte): Input {
    Call(AdminApprove(mac, Hub.ApprovalParams(id, "", "", ""), []), 0)
  }

  ghost predicate SameOtherRecords(t: Auth.Table, u: Auth.Table, mac: Mac) {
    forall m :: m != mac ==> (m in t <==> m in u) && (m in t ==> u[m] == t[m])
  }

  lemma AsksFirst(h: Hub.State, mac: Mac, key: Key)
    requires mac !in h.auth
    ensures var r := Step(h, Asks(mac, key));
      r.nodes == h.nodes && mac in r.auth && r.auth[mac].publicKey == key && SameOtherRecords(h.auth, r.auth, mac)
  {
    assert mac[..6] == mac;
  }

  lemma ApprovesAs(h: Hub.State, mac: Mac, key: Key, id: byte)
    requires mac in h.auth && h.auth[mac].publicKey == key
    ensures var r := Step(h, Approves(mac, id));
      r.nodes == Given(h.nodes, mac, id) && Auth.IsRepeat(r.auth, mac, key) && SameOtherRecords(h.auth, r.auth, mac)
  {
    var h1 := h.(trust := h.trust + [Hub.AdminApproved(mac, key)]);
    Hub.EnrollEffect(h1, mac, Hub.ApprovalParams(id, "", "", ""), [], 0);
  }

  lemma AsksAgain(h: Hub.State, mac: Mac, key: Key)
    requires GoodTable(h.nodes) && Auth.IsRepeat(h.auth, mac, key)
    ensures var r := Step(h, Asks(mac, key));
      r.nodes == Repeated(h.nodes, mac) && Auth.IsRepeat(r.auth, mac, key) && SameOtherRecords(h.auth, r.auth, mac)
  {
    assert mac[..6] == mac;
    RepeatEffect(h, EnrollmentMsg(mac, [], key), [], 0);
  }

  /** Exactly these nodes have a record, each approved for this key. */
  ghost predicate AllApproved(t: Auth.Table, who: set<Mac>, key: Key) {
    forall m :: (m in t <==> m in who) && (m in who ==> Auth.IsRepeat(t, m, key))
  }

  /** A run to which these inputs were added, and the tables it ends with. */
  ghost predicate Extends(states: seq<Hub.State>, inputs: seq<Input>, r: seq<Hub.State>, b: seq<Input>, more: seq<Input>) {
    IsHubRun(r, b) && b == inputs + more && states <= r
  }

  lemma ThenAsks(states: seq<Hub.State>, inputs: seq<Input>, who: set<Mac>, mac: Mac, key: Key)
    returns (r: seq<Hub.State>, b: seq<Input>)
    requires IsHubRun(states, inputs) && AllApproved(states[|inputs|].auth, who, key) && mac !in who
    ensures Extends(states, inputs, r, b, [Asks(mac, key)])
    ensures r[|b|].nodes == states[|inputs|].nodes && mac in r[|b|].auth && r[|b|].auth[mac].publicKey == key
    ensures SameOtherRecords(states[|inputs|].auth, r[|b|].auth, mac)
  {
    var e := Asks(mac, key);
    AsksFirst(states[|inputs|], mac, key);
    ExtendHubRun(states, inputs, e);
    r, b := states + [Step(states[|inputs|], e)], inputs + [e];
  }

  lemma ThenApproved(states: seq<Hub.State>, inputs: seq<Input>, mac: Mac, key: Key, id: byte)
    returns (r: seq<Hub.State>, b: seq<Input>)
    requires IsHubRun(states, inputs) && mac in states[|inputs|].auth && states[|inputs|].auth[mac].publicKey == key
    ensures Extends(states, inputs, r, b, [Approves(mac, id)])
    ensures r[|b|].nodes == Given(states[|inputs|].nodes, mac, id) && Auth.IsRepeat(r[|b|].auth, mac, key)
    ensures SameOtherRecords(states[|inputs|].auth, r[|b|].auth, mac)
  {
    var e := Approves(mac, id);
    ApprovesAs(states[|inputs|], mac, key, id);
    ExtendHubRun(states, inputs, e);
    r, b := states + [Step(states[|inputs|], e)], inputs + [e];
  }

  lemma OneMoreApproved(t: Auth.Table, u: Auth.Table, v: Auth.Table, who: set<Mac>, mac: Mac, key: Key)
    requires AllApproved(t, who, key) && mac !in who && Auth.IsRepeat(v, mac, key)
    requires SameOtherRecords(t, u, mac) && SameOtherRecords(u, v, mac)
    ensures AllApproved(v, who + {mac}, key)
  {
  }

  lemma ThenJoins(states: seq<Hub.State>, inputs: seq<Input>, who: set<Mac>, mac: Mac, key: Key, id: byte)
    returns (r: seq<Hub.State>, b: seq<Input>)
    requires IsHubRun(states, inputs) && AllApproved(states[|inputs|].auth, who, key) && mac !in who
    ensures Extends(states, inputs, r, b, [Asks(mac, key), Approves(mac, id)])
    ensures r[|b|].nodes == Given(states[|inputs|].nodes, mac, id) && AllApproved(r[|b|].auth, who + {mac}, key)
  {
    var s1, i1 := ThenAsks(states, inputs, who, mac, key);
    r, b := ThenApproved(s1, i1, mac, key, id);
    OneMoreApproved(states[|inputs|].auth, s1[|i1|].auth, r[|b|].auth, who, mac, key);
  }

  lemma ThenRepeats(states: seq<Hub.State>, inputs: seq<Input>, who: set<Mac>, mac: Mac, key: Key)
    returns (r: seq<Hub.State>, b: seq<Input>)
    requires IsHubRun(states, inputs) && AllApproved(states[|inputs|].auth, who, key) && mac in who
    ensures Extends(states, inputs, r, b, [Asks(mac, key)])
    ensures r[|b|].nodes == Repeated(states[|inputs|].nodes, mac) && AllApproved(r[|b|].auth, who, key)
  {
    TableStaysGood(states, inputs, |inputs|);
    AsksAgain(states[|inputs|], mac, key);
    ExtendHubRun(states, inputs, Asks(mac, key));
    r, b := states + [Step(states[|inputs|], Asks(mac, key))], inputs + [Asks(mac, key)];
  }

  /** A is approved as 2, and B is hotswapped in as 2. */
  lemma HotswapRun(cfg: Hub.Config, a: Mac, b: Mac, key: Key) returns (states: seq<Hub.State>, inputs: seq<Input>)
    requires a != b
    ensures IsHubRun(states, inputs)
    ensures inputs == [Asks(a, key), Approves(a, 2), Asks(b, key), Approves(b, 2)]
    ensures states[|inputs|].nodes == Given(Given(map[], a, 2), b, 2)
    ensures AllApproved(states[|inputs|].auth, {a, b}, key)
  {
    var s2, i2 := ThenJoins([Hub.Init(cfg)], [], {}, a, key, 2);
    states, inputs := ThenJoins(s2, i2, {} + {a}, b, key, 2);
    assert {} + {a} + {b} == {a, b};
  }

  /** And A asks again. */
  lemma ReplacedRun(cfg: Hub.Config, a: Mac, b: Mac, key: Key) returns (states: seq<Hub.State>, inputs: seq<Input>)
    requires a != b
    ensures IsHubRun(states, inputs)
    ensures inputs == [Asks(a, key), Approves(a, 2), Asks(b, key), Approves(b, 2), Asks(a, key)]
    ensures states[|inputs|].nodes == Repeated(Given(Given(map[], a, 2), b, 2), a)
    ensures AllApproved(states[|inputs|].auth, {a, b}, key)
  {
    var s4, i4 := HotswapRun(cfg, a, b, key);
    states, inputs := ThenRepeats(s4, i4, {a, b}, a, key);
  }

  /** If `c` were given the ID 1 it would hold it, until the next request of `a`. */
  ghost predicate IsThreatened(t: Nodes.Table, a: Mac, c: Mac) {
    var u := Given(t, c, 1);
    Nodes.Holds(u, c, 1) && c in Repeated(u, a) && Repeated(u, a)[c].status == Nodes.REPLACED && Repeated(u, a)[c].nodeID == 0
  }

  lemma ThreatenedRun(cfg: Hub.Config, a: Mac, b: Mac, c: Mac, key: Key) returns (states: seq<Hub.State>, inputs: seq<Input>)
    requires a != b && b != c && a != c
    ensures IsHubRun(states, inputs)
    ensures inputs == [Asks(a, key), Approves(a, 2), Asks(b, key), Approves(b, 2), Asks(a, key)]
    ensures IsThreatened(states[|inputs|].nodes, a, c) && AllApproved(states[|inputs|].auth, {a, b}, key)
  {
    EvictionOnTables(a, b, c);
    states, inputs := ReplacedRun(cfg, a, b, key);
  }

  /** C joins as 1 and holds that ID, and A's next request takes it away. */
  lemma ThenEvicted(states: seq<Hub.State>, inputs: seq<Input>, who: set<Mac>, a: Mac, c: Mac, key: Key)
    returns (r: seq<Hub.State>, b: seq<Input>)
    requires IsHubRun(states, inputs) && AllApproved(states[|inputs|].auth, who, key) && a in who && c !in who
    requires IsThreatened(states[|inputs|].nodes, a, c)
    ensures Extends(states, inputs, r, b, [Asks(c, key), Approves(c, 1), Asks(a, key)])
    ensures Nodes.Holds(r[|inputs| + 2].nodes, c, 1)
    ensures c in r[|b|].nodes && r[|b|].nodes[c].status == Nodes.REPLACED && r[|b|].nodes[c].nodeID == 0
  {
    var s1, i1 := ThenJoins(states, inputs, who, c, key, 1);
    r, b := ThenRepeats(s1, i1, who + {c}, a, key);
    assert r[|inputs| + 2] == s1[|inputs| + 2];
  }

  /** The eviction happens in a run of the hub from empty registries, for any three nodes. A is approved as 2, B is
      hotswapped in as 2, and A asks again; C is approved as 1 and holds that ID; and then a request from A alone, with no
      step of the administrator, takes it away. */
  lemma EvictionIsReachable(cfg: Hub.Config, a: Mac, b: Mac, c: Mac, key: Key)
    returns (states: seq<Hub.State>, inputs: seq<Input>)
    requires a != b && b != c && a != c
    ensures IsHubRun(states, inputs)
    ensures inputs == [Asks(a, key), Approves(a, 2), Asks(b, key), Approves(b, 2), Asks(a, key),
                       Asks(c, key), Approves(c, 1), Asks(a, key)]
    ensures Nodes.Holds(states[7].nodes, c, 1)
    ensures c in states[8].nodes && states[8].nodes[c].status == Nodes.REPLACED && states[8].nodes[c].nodeID == 0
  {
    var s5, i5 := ThreatenedRun(cfg, a, b, c, key);
    states, inputs := ThenEvicted(s5, i5, {a, b}, a, c, key);
  }
}
