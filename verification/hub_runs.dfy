/** The hub on its own. Its runs are made of its API calls, of frames of any content whatever, and of the link taking its
    frames away; who sends the frames, and whether honestly, is left open. Every run of the whole system is one of them. */
module HubRuns {
  import opened Bytes
  import opened Wire
  import opened Protocol
  import opened HubEffects
  import Nodes
  import Auth
  import Hub

  datatype Input =
    | Call(a: Action, now: int)
    | Receive(m: MeshMessage, hints: Hub.Hints, now: int)
    | Take

  ghost predicate Allowed(h: Hub.State, e: Input) {
    match e
    case Call(a, _) => HubEnabled(h, a)
    case Receive(_, _, _) => true
    case Take => h.tx != []
  }

  /** An action that is not the hub's own leaves it as it is. */
  ghost function Step(h: Hub.State, e: Input): Hub.State
    requires Allowed(h, e)
  {
    match e
    case Call(a, now) => HubStep(h, a, now)
    case Receive(m, hints, now) => Hub.HandleMessage(h, m, hints, now)
    case Take => h.(tx := h.tx[1..])
  }

  ghost predicate IsHubStep(states: seq<Hub.State>, inputs: seq<Input>, i: nat)
    requires i < |inputs| < |states|
  {
    Allowed(states[i], inputs[i]) && states[i + 1] == Step(states[i], inputs[i])
  }

  ghost predicate IsHubRun(states: seq<Hub.State>, inputs: seq<Input>) {
    && |states| == |inputs| + 1 && states[0] == Hub.Init(states[0].cfg)
    && forall i :: 0 <= i < |inputs| ==> IsHubStep(states, inputs, i)
  }

  lemma ExtendHubRun(states: seq<Hub.State>, inputs: seq<Input>, e: Input)
    requires IsHubRun(states, inputs) && Allowed(states[|inputs|], e)
    ensures IsHubRun(states + [Step(states[|inputs|], e)], inputs + [e])
  {
    var r, b := states + [Step(states[|inputs|], e)], inputs + [e];
    forall i | 0 <= i < |b| ensures IsHubStep(r, b, i) {
      if i < |inputs| {
        assert IsHubStep(states, inputs, i);
      }
    }
  }

  // ----- Histories of the whole system -----

  function InputOf(s: System, a: Action): Input {
    match a
    case DeliverUp(hints) => if s.sim.tx == [] then Take else Receive(s.sim.tx[0], hints, s.now)
    case DeliverDown(_) => Take
    case _ => Call(a, s.now)
  }

  lemma InputIsStep(s: System, a: Action)
    requires Enabled(s, a)
    ensures Allowed(s.hub, InputOf(s, a)) && Apply(s, a).hub == Step(s.hub, InputOf(s, a))
  {
  }

  function HubStates(states: seq<System>): seq<Hub.State> {
    seq(|states|, i requires 0 <= i < |states| => states[i].hub)
  }

  function Inputs(states: seq<System>, actions: seq<Action>): seq<Input>
    requires |states| > |actions|
  {
    seq(|actions|, i requires 0 <= i < |actions| => InputOf(states[i], actions[i]))
  }

  /** What the hub goes through in a run of the whole system is a run of the hub. */
  lemma HistoryIsHubRun(states: seq<System>, actions: seq<Action>)
    requires IsHistory(states, actions)
    ensures IsHubRun(HubStates(states), Inputs(states, actions))
  {
    var r, b := HubStates(states), Inputs(states, actions);
    forall i | 0 <= i < |b| ensures IsHubStep(r, b, i) {
      assert IsStep(states, actions, i);
      InputIsStep(states[i], actions[i]);
    }
  }

  // ----- Runs with a clock -----

  /** The hub at some time, and the time of its last offline check. */
  datatype Moment = Moment(hub: Hub.State, now: int, lastCheck: int)

  predicate IsCheck(e: Input) {
    e.Call? && e.a.CheckOffline?
  }

  /** A step happens at the time of the moment before it, and time never goes backwards. */
  ghost predicate Follows(s: Moment, e: Input, r: Moment) {
    && Allowed(s.hub, e) && r.hub == Step(s.hub, e)
    && (e.Take? || e.now == s.now) && s.now <= r.now
    && r.lastCheck == (if IsCheck(e) then s.now else s.lastCheck)
  }

  ghost predicate IsClockStep(ms: seq<Moment>, inputs: seq<Input>, i: nat)
    requires i < |inputs| < |ms|
  {
    Follows(ms[i], inputs[i], ms[i + 1])
  }

  ghost predicate IsClockedRun(ms: seq<Moment>, inputs: seq<Input>) {
    && |ms| == |inputs| + 1
    && ms[0].hub == Hub.Init(ms[0].hub.cfg) && ms[0].lastCheck == ms[0].now
    && forall i :: 0 <= i < |inputs| ==> IsClockStep(ms, inputs, i)
  }

  function Hubs(ms: seq<Moment>): seq<Hub.State> {
    seq(|ms|, i requires 0 <= i < |ms| => ms[i].hub)
  }

  lemma ClockedIsHubRun(ms: seq<Moment>, inputs: seq<Input>)
    requires IsClockedRun(ms, inputs)
    ensures IsHubRun(Hubs(ms), inputs)
  {
    forall i | 0 <= i < |inputs| ensures IsHubStep(Hubs(ms), inputs, i) {
      assert IsClockStep(ms, inputs, i);
    }
  }

  function Moments(states: seq<System>): seq<Moment> {
    seq(|states|, i requires 0 <= i < |states| => Moment(states[i].hub, states[i].now, states[i].lastCheck))
  }

  lemma StepKeepsTime(s: System, a: Action)
    requires Enabled(s, a)
    ensures var r := Apply(s, a);
      s.now <= r.now && r.lastCheck == (if IsCheck(InputOf(s, a)) then s.now else s.lastCheck)
  {
  }

  /** A run of the whole system is one with a clock. */
  lemma HistoryIsClocked(states: seq<System>, actions: seq<Action>)
    requires IsHistory(states, actions)
    ensures IsClockedRun(Moments(states), Inputs(states, actions))
  {
    var ms, b := Moments(states), Inputs(states, actions);
    forall i | 0 <= i < |b| ensures IsClockStep(ms, b, i) {
      assert IsStep(states, actions, i);
      InputIsStep(states[i], actions[i]);
      StepKeepsTime(states[i], actions[i]);
    }
  }

  // ----- Logical IDs -----

  lemma EnrollKeepsGood(h: Hub.State, mac: Mac, p: Hub.ApprovalParams, hint: Bytes, now: int)
    requires GoodTable(h.nodes) && mac in h.auth
    ensures GoodTable(Hub.Enroll(h, mac, p, hint, now).nodes)
  {
    Hub.EnrollEffect(h, mac, p, hint, now);
    InstallKeepsGood(h.nodes, mac, p, hint);
  }

  lemma CallKeepsGood(h: Hub.State, a: Action, now: int)
    requires GoodTable(h.nodes) && HubEnabled(h, a)
    ensures GoodTable(HubStep(h, a, now).nodes)
  {
    if a.AdminApprove? {
      if a.mac in h.auth {
        EnrollKeepsGood(h.(trust := h.trust + [Hub.AdminApproved(a.mac, h.auth[a.mac].publicKey)]), a.mac, a.params, a.hint, now);
      }
    } else if !a.AdminReject? {
      RoutineStep(h, a, now);
    }
  }

  lemma MessageKeepsGood(h: Hub.State, m: MeshMessage, hints: Hub.Hints, now: int)
    requires GoodTable(h.nodes)
    ensures GoodTable(Hub.HandleMessage(h, m, hints, now).nodes)
  {
    if m.messageType != MSG_ENROLLMENT {
      RoutineMessage(h, m, hints, now);
    } else if Hub.IsRequest(m) {
      var mac: Mac, key: Key := m.origin[..6], m.publicKey;
      var h1 := h.(auth := Auth.AddPending(h.auth, mac, key, now));
      EnrollKeepsGood(h1, mac, Hub.ResendParams(h1.nodes, mac), hints.holder, now);
    }
  }

  lemma StepKeepsGood(h: Hub.State, e: Input)
    requires GoodTable(h.nodes) && Allowed(h, e)
    ensures GoodTable(Step(h, e).nodes)
  {
    match e
    case Call(a, now) => CallKeepsGood(h, a, now);
    case Receive(m, hints, now) => MessageKeepsGood(h, m, hints, now);
    case Take =>
  }

  lemma {:induction false} TableStaysGood(states: seq<Hub.State>, inputs: seq<Input>, i: nat)
    requires IsHubRun(states, inputs) && i < |states|
    ensures GoodTable(states[i].nodes)
  {
    if i > 0 {
      TableStaysGood(states, inputs, i - 1);
      assert IsHubStep(states, inputs, i - 1);
      StepKeepsGood(states[i - 1], inputs[i - 1]);
    }
  }

  /** ID uniqueness: whatever frames arrive, from whomever, no two entries that are not replaced ever share a nonzero ID,
      and so a lookup by ID has one possible answer whatever order the map is walked in. */
  lemma IDsStayUnique(states: seq<Hub.State>, inputs: seq<Input>, i: nat, id: byte, h1: Bytes, h2: Bytes)
    requires IsHubRun(states, inputs) && i < |states| && id > 0
    ensures var t := states[i].nodes;
      Nodes.UniqueIDs(t) && Nodes.GetNodeByID(t, id, h1) == Nodes.GetNodeByID(t, id, h2)
  {
    TableStaysGood(states, inputs, i);
    Nodes.LookupIgnoresOrder(states[i].nodes);
  }
}
