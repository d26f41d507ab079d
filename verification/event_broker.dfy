/** The in-process event broker: bounded channels that lose events rather than block, first as the class it is, then as
    a step system in which publishers, subscribers and unsubscribers interleave. */
module Broker {
  const CAPACITY := 32

  /** A non-blocking send: the value is appended, or dropped when the buffer is full. */
  function Offer<E>(buf: seq<E>, e: E): seq<E> {
    if |buf| < CAPACITY then buf + [e] else buf
  }

  // ----- The class -----

  class Channel<E> {
    var buf: seq<E>
    var closed: bool

    constructor ()
      ensures buf == [] && !closed
    {
      buf, closed := [], false;
    }
  }

  class EventBroker<E> {
    var clients: set<Channel<E>>

    /** Registered channels are open: sending to a closed one would panic. */
    ghost predicate Valid()
      reads this, clients
    {
      forall ch <- clients :: !ch.closed && |ch.buf| <= CAPACITY
    }

    constructor ()
      ensures Valid() && clients == {}
    {
      clients := {};
    }

    method Subscribe() returns (ch: Channel<E>)
      requires Valid()
      modifies this
      ensures Valid() && fresh(ch) && clients == old(clients) + {ch} && ch.buf == [] && !ch.closed
    {
      ch := new Channel<E>();
      clients := clients + {ch};
    }

    /** Closing a channel twice would panic, so each channel may be unsubscribed once. */
    method Unsubscribe(ch: Channel<E>)
      requires Valid() && !ch.closed
      modifies this, ch`closed
      ensures Valid() && clients == old(clients) - {ch} && ch.closed
    {
      clients := clients - {ch};
      ch.closed := true;
    }

    method Publish(e: E)
      requires Valid()
      modifies clients`buf
      ensures Valid() && forall ch <- clients :: ch.buf == Offer(old(ch.buf), e)
    {
      var todo := clients;
      while todo != {}
        invariant todo <= clients
        invariant forall ch <- clients :: ch.buf == if ch in todo then old(ch.buf) else Offer(old(ch.buf), e)
        decreases todo
      {
        var ch :| ch in todo;
        if |ch.buf| < CAPACITY {
          ch.buf := ch.buf + [e];
        }
        todo := todo - {ch};
      }
    }
  }
}

/** The broker under interleaving. Publish holds the lock for reading while it walks the clients, so several publishers
    may be under way at once; Subscribe and the first half of Unsubscribe hold it for writing; the close that ends an
    Unsubscribe, and receiving, hold no lock. Events are numbered in the order their Publish calls took the lock. */
module BrokerSteps {
  import opened Broker

  type ChanId = nat

  datatype Phase = Open | Removed | Closed

  /** One attempt to send event `n`, and whether the buffer was full then. */
  datatype Attempt = Attempt(n: nat, full: bool)

  /** `since` is the number of events published before it subscribed. */
  datatype Chan = Chan(since: nat, phase: Phase, buf: seq<nat>, received: seq<nat>, attempts: seq<Attempt>)

  /** `active` maps each Publish under way to the channels it has not reached yet; `panicked` records a send to, or a
      close of, a closed channel. */
  datatype State = State(
    clients: set<ChanId>, chans: map<ChanId, Chan>, published: nat, active: map<nat, set<ChanId>>, panicked: bool)

  datatype Action =
    | Subscribe(id: ChanId)
    | Remove(id: ChanId)
    | Close(id: ChanId)
    | Begin
    | SendTo(n: nat, id: ChanId)
    | End(n: nat)
    | Receive(id: ChanId)

  const INITIAL := State({}, map[], 0, map[], false)

  /** The lock, program order, and one Unsubscribe for each channel. */
  predicate Enabled(s: State, a: Action) {
    match a
    case Subscribe(id) => s.active == map[] && id !in s.chans
    case Remove(id) => s.active == map[] && id in s.chans && s.chans[id].phase == Open
    case Close(id) => id in s.chans && s.chans[id].phase == Removed
    case Begin => true
    case SendTo(n, id) => n in s.active && id in s.active[n] && id in s.chans
    case End(n) => n in s.active && s.active[n] == {}
    case Receive(id) => id in s.chans && s.chans[id].buf != []
  }

  /** A non-blocking send: the event is appended to the buffer, or dropped when that is full. */
  function Sent(c: Chan, n: nat): Chan {
    c.(buf := Offer(c.buf, n), attempts := c.attempts + [Attempt(n, |c.buf| >= CAPACITY)])
  }

  function Apply(s: State, a: Action): State
    requires Enabled(s, a)
  {
    match a
    case Subscribe(id) => s.(clients := s.clients + {id}, chans := s.chans[id := Chan(s.published, Open, [], [], [])])
    case Remove(id) => s.(clients := s.clients - {id}, chans := s.chans[id := s.chans[id].(phase := Removed)])
    case Close(id) =>
      s.(chans := s.chans[id := s.chans[id].(phase := Closed)], panicked := s.panicked || s.chans[id].phase == Closed)
    case Begin => s.(active := s.active[s.published := s.clients], published := s.published + 1)
    case SendTo(n, id) =>
      s.(active := s.active[n := s.active[n] - {id}],
         panicked := s.panicked || s.chans[id].phase == Closed,
         chans := s.chans[id := Sent(s.chans[id], n)])
    case End(n) => s.(active := s.active - {n})
    case Receive(id) =>
      var c := s.chans[id];
      s.(chans := s.chans[id := c.(received := c.received + [c.buf[0]], buf := c.buf[1..])])
  }

  ghost predicate IsRun(states: seq<State>, actions: seq<Action>) {
    && |states| == |actions| + 1 && states[0] == INITIAL
    && forall i :: 0 <= i < |actions| ==> Enabled(states[i], actions[i]) && states[i + 1] == Apply(states[i], actions[i])
  }

  // ----- Delivery -----

  /** The events that got through, in the order they were sent. */
  function Delivered(attempts: seq<Attempt>): seq<nat> {
    if attempts == [] then []
    else
      var last := attempts[|attempts| - 1];
      Delivered(attempts[..|attempts| - 1]) + (if last.full then [] else [last.n])
  }

  ghost predicate Attempted(c: Chan, n: nat) {
    exists k :: 0 <= k < |c.attempts| && c.attempts[k].n == n
  }

  predicate Owed(s: State, n: nat, id: ChanId) {
    n in s.active && id in s.active[n]
  }

  ghost predicate ChanInv(s: State, id: ChanId)
    requires id in s.chans
  {
    var c := s.chans[id];
    && c.received + c.buf == Delivered(c.attempts)
    && |c.buf| <= CAPACITY
    && c.since <= s.published
    && (forall k :: 0 <= k < |c.attempts| ==> c.since <= c.attempts[k].n < s.published && !Owed(s, c.attempts[k].n, id))
    && (forall j, k :: 0 <= j < k < |c.attempts| ==> c.attempts[j].n != c.attempts[k].n)
    && (id in s.clients ==> forall n :: c.since <= n < s.published ==> Attempted(c, n) || Owed(s, n, id))
  }

  /** Registered means open, and publishers under way only have registered channels left to reach. */
  ghost predicate Shape(s: State) {
    && !s.panicked
    && (forall id :: id in s.clients <==> id in s.chans && s.chans[id].phase == Open)
    && (forall n :: n in s.active ==> n < s.published && s.active[n] <= s.clients)
  }

  ghost predicate OwedSince(s: State) {
    forall n, id :: Owed(s, n, id) && id in s.chans ==> s.chans[id].since <= n
  }

  ghost predicate BrokerInv(s: State) {
    Shape(s) && OwedSince(s) && forall id :: id in s.chans ==> ChanInv(s, id)
  }

  /** What a step must leave alone for a channel's invariant to survive it. */
  lemma ChanUntouched(s: State, r: State, id: ChanId)
    requires id in s.chans && ChanInv(s, id) && id in r.chans
    requires var c, d := s.chans[id], r.chans[id];
      d.attempts == c.attempts && d.since == c.since && d.received + d.buf == c.received + c.buf && |d.buf| <= |c.buf|
    requires r.published == s.published && (id in r.clients ==> id in s.clients)
    requires forall n :: Owed(r, n, id) <==> Owed(s, n, id)
    ensures ChanInv(r, id)
  {
    if id in r.clients {
      forall n | s.chans[id].since <= n < r.published ensures Attempted(r.chans[id], n) || Owed(r, n, id) {
        assert Attempted(s.chans[id], n) || Owed(s, n, id);
      }
    }
  }

  lemma SentDelivers(c: Chan, n: nat)
    requires c.received + c.buf == Delivered(c.attempts) && |c.buf| <= CAPACITY
    ensures Sent(c, n).received + Sent(c, n).buf == Delivered(Sent(c, n).attempts) && |Sent(c, n).buf| <= CAPACITY
  {
    var d := Sent(c, n);
    assert d.attempts[..|d.attempts| - 1] == c.attempts;
  }

  lemma SentIsDistinct(c: Chan, n: nat)
    requires forall j, k :: 0 <= j < k < |c.attempts| ==> c.attempts[j].n != c.attempts[k].n
    requires forall k :: 0 <= k < |c.attempts| ==> c.attempts[k].n != n
    ensures var q := Sent(c, n).attempts; forall j, k :: 0 <= j < k < |q| ==> q[j].n != q[k].n
  {
  }

  lemma SendOwes(s: State, n: nat, id: ChanId, m: nat)
    requires Enabled(s, SendTo(n, id))
    ensures Owed(Apply(s, SendTo(n, id)), m, id) <==> Owed(s, m, id) && m != n
  {
  }

  lemma SendCovers(s: State, r: State, n: nat, id: ChanId)
    requires id in s.chans && ChanInv(s, id) && id in r.chans && r.chans[id] == Sent(s.chans[id], n)
    requires r.published == s.published && r.clients == s.clients
    requires forall m :: Owed(r, m, id) <==> Owed(s, m, id) && m != n
    ensures id in r.clients ==>
      forall m :: r.chans[id].since <= m < r.published ==> Attempted(r.chans[id], m) || Owed(r, m, id)
  {
    if id in r.clients {
      forall m | r.chans[id].since <= m < r.published ensures Attempted(r.chans[id], m) || Owed(r, m, id) {
        assert Attempted(s.chans[id], m) || Owed(s, m, id);
        AttemptedGrows(s.chans[id], r.chans[id], m);
      }
    }
  }

  lemma SentKeepsChan(s: State, r: State, n: nat, id: ChanId)
    requires id in s.chans && ChanInv(s, id) && id in r.chans && r.chans[id] == Sent(s.chans[id], n)
    requires r.published == s.published && r.clients == s.clients
    requires Owed(s, n, id) && s.chans[id].since <= n < s.published
    requires forall m :: Owed(r, m, id) <==> Owed(s, m, id) && m != n
    ensures ChanInv(r, id)
  {
    var c, d := s.chans[id], r.chans[id];
    SentDelivers(c, n);
    SentIsDistinct(c, n);
    SendCovers(s, r, n, id);
    forall k | 0 <= k < |d.attempts| ensures d.since <= d.attempts[k].n < r.published && !Owed(r, d.attempts[k].n, id) {
      assert k < |c.attempts| ==> d.attempts[k] == c.attempts[k];
    }
  }

  lemma SendKeepsChan(s: State, n: nat, id: ChanId)
    requires BrokerInv(s) && Enabled(s, SendTo(n, id))
    ensures ChanInv(Apply(s, SendTo(n, id)), id)
  {
    var r := Apply(s, SendTo(n, id));
    assert Owed(s, n, id);
    forall m ensures Owed(r, m, id) <==> Owed(s, m, id) && m != n {
      SendOwes(s, n, id, m);
    }
    SentKeepsChan(s, r, n, id);
  }

  lemma AttemptedGrows(c: Chan, d: Chan, m: nat)
    requires |d.attempts| == |c.attempts| + 1 && d.attempts[..|c.attempts|] == c.attempts
    ensures Attempted(d, m) <==> Attempted(c, m) || d.attempts[|c.attempts|].n == m
  {
    if Attempted(c, m) {
      var k :| 0 <= k < |c.attempts| && c.attempts[k].n == m;
      assert d.attempts[k].n == m;
    }
    if Attempted(d, m) {
      var k :| 0 <= k < |d.attempts| && d.attempts[k].n == m;
      assert k < |c.attempts| ==> c.attempts[k].n == m;
    }
  }

  lemma BeginKeepsChan(s: State, id: ChanId)
    requires BrokerInv(s) && id in s.chans
    ensures ChanInv(Apply(s, Begin), id)
  {
    var r := Apply(s, Begin);
    assert ChanInv(s, id);
    forall n ensures Owed(r, n, id) <==> if n == s.published then id in s.clients else Owed(s, n, id) {
    }
    if id in r.clients {
      forall n | s.chans[id].since <= n < r.published ensures Attempted(r.chans[id], n) || Owed(r, n, id) {
        if n < s.published {
          assert Attempted(s.chans[id], n) || Owed(s, n, id);
        }
      }
    }
  }

  lemma OtherKeepsChan(s: State, a: Action, id: ChanId)
    requires id in s.chans && ChanInv(s, id) && Enabled(s, a) && id in Apply(s, a).chans
    requires !a.Begin? && !(a.SendTo? && a.id == id) && (a.Subscribe? ==> a.id != id)
    ensures ChanInv(Apply(s, a), id)
  {
    ChanUntouched(s, Apply(s, a), id);
  }

  lemma StepKeepsChan(s: State, a: Action, id: ChanId)
    requires BrokerInv(s) && Enabled(s, a) && id in Apply(s, a).chans
    ensures ChanInv(Apply(s, a), id)
  {
    if a.Begin? {
      BeginKeepsChan(s, id);
    } else if a.SendTo? && a.id == id {
      SendKeepsChan(s, a.n, id);
    } else if id in s.chans {
      assert ChanInv(s, id);
      OtherKeepsChan(s, a, id);
    }
  }

  lemma ShapeStep(s: State, a: Action)
    requires Shape(s) && Enabled(s, a)
    ensures Shape(Apply(s, a))
  {
  }

  lemma OwedStep(s: State, a: Action)
    requires BrokerInv(s) && Enabled(s, a)
    ensures OwedSince(Apply(s, a))
  {
    var r := Apply(s, a);
    forall n, id | Owed(r, n, id) && id in r.chans ensures r.chans[id].since <= n {
      assert (a.Begin? && n == s.published) || Owed(s, n, id);
      assert id in s.clients && ChanInv(s, id);
    }
  }

  lemma BrokerStep(s: State, a: Action)
    requires BrokerInv(s) && Enabled(s, a)
    ensures BrokerInv(Apply(s, a))
  {
    ShapeStep(s, a);
    OwedStep(s, a);
    forall id | id in Apply(s, a).chans ensures ChanInv(Apply(s, a), id) {
      StepKeepsChan(s, a, id);
    }
  }

  lemma {:induction false} BrokerHolds(states: seq<State>, actions: seq<Action>, i: nat)
    requires IsRun(states, actions) && i < |states|
    ensures BrokerInv(states[i])
  {
    if i > 0 {
      BrokerHolds(states, actions, i - 1);
      BrokerStep(states[i - 1], actions[i - 1]);
    }
  }

  /** With one Unsubscribe for each channel no run ever sends to, or closes, a closed channel, however it interleaves. */
  lemma NeverPanics(states: seq<State>, actions: seq<Action>, i: nat)
    requires IsRun(states, actions) && i < |states|
    ensures !states[i].panicked
  {
    BrokerHolds(states, actions, i);
  }

  /** Every channel ever made has received, or still has buffered, exactly the events sent to it while its buffer was not
      full, in the order they were sent; at most 32 are buffered; no event is sent to it twice, or both sent and still owed,
      and none published before it subscribed is. While it is subscribed, each event published since is sent to it, now or
      by a Publish under way. */
  lemma DeliveryIsExact(states: seq<State>, actions: seq<Action>, i: nat, id: ChanId, n: nat)
    requires IsRun(states, actions) && i < |states| && id in states[i].chans
    ensures var s := states[i];
      var c := s.chans[id];
      && c.received + c.buf == Delivered(c.attempts) && |c.buf| <= CAPACITY
      && (forall j, k :: 0 <= j < k < |c.attempts| ==> c.attempts[j].n != c.attempts[k].n)
      && !(Attempted(c, n) && Owed(s, n, id))
      && (Attempted(c, n) || Owed(s, n, id) ==> c.since <= n < s.published)
      && (id in s.clients && c.since <= n < s.published ==> Attempted(c, n) || Owed(s, n, id))
      && (id !in s.clients ==> !Owed(s, n, id))
  {
    BrokerHolds(states, actions, i);
    assert ChanInv(states[i], id);
  }

  // ----- Order -----

  /** No Publish begins while an earlier one still owes some channel its event. */
  ghost predicate Sequential(states: seq<State>, actions: seq<Action>) {
    |states| == |actions| + 1
    && forall i, n, id :: 0 <= i < |actions| && actions[i].Begin? ==> !Owed(states[i], n, id)
  }

  predicate Increasing(q: seq<nat>) {
    forall j, k :: 0 <= j < k < |q| ==> q[j] < q[k]
  }

  ghost predicate AttemptsOrdered(c: Chan) {
    forall j, k :: 0 <= j < k < |c.attempts| ==> c.attempts[j].n < c.attempts[k].n
  }

  ghost predicate OrderInv(s: State) {
    && (forall n: nat, id: ChanId :: Owed(s, n, id) ==> n + 1 == s.published)
    && forall id :: id in s.chans ==> AttemptsOrdered(s.chans[id])
  }

  lemma OwedStaysLatest(s: State, a: Action, n: nat, id: ChanId)
    requires Enabled(s, a) && Owed(Apply(s, a), n, id)
    requires Owed(s, n, id) ==> n + 1 == s.published
    requires a.Begin? ==> !Owed(s, n, id)
    ensures n + 1 == Apply(s, a).published
  {
    assert (a.Begin? && n == s.published) || Owed(s, n, id);
  }

  lemma OnlySendsAttempt(s: State, a: Action, id: ChanId)
    requires Enabled(s, a) && id in Apply(s, a).chans && !(a.SendTo? && a.id == id)
    ensures Apply(s, a).chans[id].attempts == if id in s.chans then s.chans[id].attempts else []
  {
  }

  /** With one Publish under way, what it still owes is newer than all the channel was offered. */
  lemma OwedIsNewest(s: State, n: nat, id: ChanId, k: nat)
    requires id in s.chans && ChanInv(s, id) && Owed(s, n, id) && n + 1 == s.published
    requires k < |s.chans[id].attempts|
    ensures s.chans[id].attempts[k].n < n
  {
    assert !Owed(s, s.chans[id].attempts[k].n, id);
  }

  lemma AttemptsStayOrdered(s: State, a: Action, id: ChanId)
    requires BrokerInv(s) && Enabled(s, a) && id in Apply(s, a).chans
    requires forall n: nat, j: ChanId :: Owed(s, n, j) ==> n + 1 == s.published
    requires id in s.chans ==> AttemptsOrdered(s.chans[id])
    ensures AttemptsOrdered(Apply(s, a).chans[id])
  {
    if a.SendTo? && a.id == id {
      assert Owed(s, a.n, id);
      forall k: nat | k < |s.chans[id].attempts| ensures s.chans[id].attempts[k].n < a.n {
        OwedIsNewest(s, a.n, id, k);
      }
    } else {
      OnlySendsAttempt(s, a, id);
    }
  }

  lemma OrderStep(s: State, a: Action)
    requires BrokerInv(s) && OrderInv(s) && Enabled(s, a) && (a.Begin? ==> forall n, id :: !Owed(s, n, id))
    ensures OrderInv(Apply(s, a))
  {
    var r := Apply(s, a);
    forall n: nat, id: ChanId | Owed(r, n, id) ensures n + 1 == r.published {
      OwedStaysLatest(s, a, n, id);
    }
    forall id | id in r.chans ensures AttemptsOrdered(r.chans[id]) {
      AttemptsStayOrdered(s, a, id);
    }
  }

  lemma {:induction false} OrderHolds(states: seq<State>, actions: seq<Action>, i: nat)
    requires IsRun(states, actions) && Sequential(states, actions) && i < |states|
    ensures OrderInv(states[i])
  {
    if i > 0 {
      OrderHolds(states, actions, i - 1);
      BrokerHolds(states, actions, i - 1);
      OrderStep(states[i - 1], actions[i - 1]);
    }
  }

  lemma {:induction false} DeliveredInOrder(attempts: seq<Attempt>)
    requires forall j, k :: 0 <= j < k < |attempts| ==> attempts[j].n < attempts[k].n
    ensures Increasing(Delivered(attempts))
    ensures forall n :: n in Delivered(attempts) ==> exists k :: 0 <= k < |attempts| && attempts[k].n == n
  {
    if attempts != [] {
      var init := attempts[..|attempts| - 1];
      DeliveredInOrder(init);
      forall n | n in Delivered(attempts) ensures exists k :: 0 <= k < |attempts| && attempts[k].n == n {
        if n in Delivered(init) {
          var k :| 0 <= k < |init| && init[k].n == n;
          assert attempts[k].n == n;
        } else {
          assert attempts[|attempts| - 1].n == n;
        }
      }
      forall j | 0 <= j < |Delivered(init)| ensures Delivered(init)[j] < attempts[|attempts| - 1].n {
        assert Delivered(init)[j] in Delivered(init);
        var k :| 0 <= k < |init| && init[k].n == Delivered(init)[j];
        assert attempts[k].n < attempts[|attempts| - 1].n;
      }
    }
  }

  /** When no Publish begins before the earlier ones have reached every channel, every subscriber sees events in
      the order they were published. */
  lemma SubscribersSeePublishOrder(states: seq<State>, actions: seq<Action>, i: nat, id: ChanId)
    requires IsRun(states, actions) && Sequential(states, actions) && i < |states| && id in states[i].chans
    ensures Increasing(states[i].chans[id].received + states[i].chans[id].buf)
  {
    OrderHolds(states, actions, i);
    BrokerHolds(states, actions, i);
    assert ChanInv(states[i], id);
    DeliveredInOrder(states[i].chans[id].attempts);
  }

  // ----- Overlap -----

  lemma Extend(states: seq<State>, actions: seq<Action>, a: Action) returns (r: seq<State>, b: seq<Action>)
    requires IsRun(states, actions) && Enabled(states[|actions|], a)
    ensures IsRun(r, b) && b == actions + [a] && r[|b|] == Apply(states[|actions|], a)
  {
    r, b := states + [Apply(states[|actions|], a)], actions + [a];
  }

  /** One Receive makes room if it is needed. */
  lemma MakeRoom(states: seq<State>, actions: seq<Action>, n: nat, id: ChanId) returns (r: seq<State>, b: seq<Action>)
    requires IsRun(states, actions) && Owed(states[|actions|], n, id)
    ensures IsRun(r, b) && actions <= b
    ensures var s := r[|b|]; Owed(s, n, id) && id in s.clients && id in s.chans && |s.chans[id].buf| < CAPACITY
  {
    BrokerHolds(states, actions, |actions|);
    var s := states[|actions|];
    assert ChanInv(s, id);
    r, b := states, actions;
    if |s.chans[id].buf| >= CAPACITY {
      r, b := Extend(states, actions, Receive(id));
    }
  }

  /** The newer of two events is sent first, one is received, and then the older is sent. */
  function Overtake(s: State, n: nat, id: ChanId): State
    requires Owed(s, n, id) && n < s.published && id in s.clients && id in s.chans && |s.chans[id].buf| < CAPACITY
  {
    var s1 := Apply(s, Begin);
    var s2 := Apply(s1, SendTo(s.published, id));
    var s3 := Apply(s2, Receive(id));
    Apply(s3, SendTo(n, id))
  }

  lemma OvertakeIsUnordered(s: State, n: nat, id: ChanId)
    requires Owed(s, n, id) && n < s.published && id in s.clients && id in s.chans && |s.chans[id].buf| < CAPACITY
    ensures id in Overtake(s, n, id).chans
    ensures var c := Overtake(s, n, id).chans[id]; !Increasing(c.received + c.buf)
  {
    var c := Overtake(s, n, id).chans[id];
    var q := c.received + c.buf;
    assert q == s.chans[id].received + s.chans[id].buf + [s.published, n];
    assert q[|q| - 2] == s.published && q[|q| - 1] == n;
  }

  /** And that is exactly when: from any reachable state in which a Publish still owes a channel its event, letting another
      Publish begin now can make that subscriber see the two in the wrong order. */
  lemma OverlapCanDisorder(states: seq<State>, actions: seq<Action>, n: nat, id: ChanId)
    returns (r: seq<State>, b: seq<Action>)
    requires IsRun(states, actions) && Owed(states[|actions|], n, id)
    ensures IsRun(r, b) && actions <= b
    ensures id in r[|b|].chans && !Increasing(r[|b|].chans[id].received + r[|b|].chans[id].buf)
  {
    var r0, b0 := MakeRoom(states, actions, n, id);
    BrokerHolds(r0, b0, |b0|);
    OvertakeIsUnordered(r0[|b0|], n, id);
    var newer := r0[|b0|].published;
    var r1, b1 := Extend(r0, b0, Begin);
    var r2, b2 := Extend(r1, b1, SendTo(newer, id));
    var r3, b3 := Extend(r2, b2, Receive(id));
    r, b := Extend(r3, b3, SendTo(n, id));
  }

  const RACE := [Subscribe(0), Subscribe(1), Begin, Begin, SendTo(0, 0), SendTo(1, 1), SendTo(1, 0), SendTo(0, 1)]

  /** Two publishers under way, for two subscribers. */
  function Racing(first: set<ChanId>, second: set<ChanId>, c: Chan, d: Chan): State {
    State({0, 1}, map[0 := c, 1 := d], 2, map[0 := first, 1 := second], false)
  }

  lemma RaceSend(first: set<ChanId>, second: set<ChanId>, c: Chan, d: Chan, n: nat, id: ChanId)
    requires n < 2 && id < 2 && id in (if n == 0 then first else second) && c.phase == d.phase == Open
    ensures Enabled(Racing(first, second, c, d), SendTo(n, id))
    ensures Apply(Racing(first, second, c, d), SendTo(n, id))
         == Racing(if n == 0 then first - {id} else first, if n == 1 then second - {id} else second,
                   if id == 0 then Sent(c, n) else c, if id == 1 then Sent(d, n) else d)
  {
    PairUpdate(c, d, id, Sent(if id == 0 then c else d, n));
    PairUpdate(first, second, n, (if n == 0 then first else second) - {id});
  }

  lemma PairUpdate<T>(x: T, y: T, i: nat, z: T)
    requires i < 2
    ensures map[0 := x, 1 := y][i := z] == map[0 := if i == 0 then z else x, 1 := if i == 1 then z else y]
  {
  }

  lemma RaceBegins() returns (states: seq<State>)
    ensures |states| == 5 && states[0] == INITIAL
    ensures forall i :: 0 <= i < 4 ==> Enabled(states[i], RACE[i]) && states[i + 1] == Apply(states[i], RACE[i])
    ensures states[4] == Racing({0, 1}, {0, 1}, Chan(0, Open, [], [], []), Chan(0, Open, [], [], []))
  {
    var blank := Chan(0, Open, [], [], []);
    var s1 := State({0}, map[0 := blank], 0, map[], false);
    var s2 := State({0, 1}, map[0 := blank, 1 := blank], 0, map[], false);
    var s3 := State({0, 1}, map[0 := blank, 1 := blank], 1, map[0 := {0, 1}], false);
    states := [INITIAL, s1, s2, s3, Racing({0, 1}, {0, 1}, blank, blank)];
  }

  /** When they do overlap it fails: two publishers can reach two subscribers in opposite orders. */
  lemma OverlappingPublishersDisagree() returns (states: seq<State>)
    ensures IsRun(states, RACE)
    ensures states[8].chans.Keys == {0, 1} && states[8].chans[0].buf == [0, 1] && states[8].chans[1].buf == [1, 0]
  {
    var begun := RaceBegins();
    var c := Chan(0, Open, [], [], []);
    var c0, d1 := Sent(c, 0), Sent(c, 1);
    var c01, d10 := Sent(c0, 1), Sent(d1, 0);
    RaceSend({0, 1}, {0, 1}, c, c, 0, 0);
    RaceSend({1}, {0, 1}, c0, c, 1, 1);
    RaceSend({1}, {0}, c0, d1, 1, 0);
    RaceSend({1}, {}, c01, d1, 0, 1);
    var s5, s6 := Racing({1}, {0, 1}, c0, c), Racing({1}, {0}, c0, d1);
    var s7, s8 := Racing({1}, {}, c01, d1), Racing({}, {}, c01, d10);
    var none: set<ChanId> := {};
    assert {0, 1} - {0} == {1} && {0, 1} - {1} == {0} && {0} - {0} == none && {1} - {1} == none;
    states := begun + [s5, s6, s7, s8];
  }
}
