/** The event store's health accounting: failed writes, topic readiness, and the retry loop that creates topics. */
module Kafka {
  import opened Clock

  datatype TopicStats = TopicStats(ready: bool, failedWrites: nat, lastError: string, lastFailureAt: Stamp)

  datatype Stats = Stats(
    connected: bool,
    topicsReady: bool,
    topics: map<string, TopicStats>,
    failedWrites: nat,
    lastError: string,
    lastFailureAt: Stamp)

  const TOPICS: seq<string> := ["motion-trigger", "mesh-enrollment", "mesh-messages"]

  const NEW_TOPIC := TopicStats(false, 0, "", Never)

  function DisconnectedStats(): Stats {
    Stats(false, false, map t | t in TOPICS :: NEW_TOPIC, 0, "", Never)
  }

  datatype TopicError = AlreadyExists | Refused(text: string)

  /** The broker's answer to a request to create topics: it failed as a whole, or lists errors by topic. */
  datatype Reply = RequestFailed(text: string) | Replied(errors: map<string, TopicError>)

  /** The topics the broker refused; one that already exists is as good as created. */
  function FailedTopics(topics: seq<string>, errors: map<string, TopicError>): map<string, string> {
    map t | t in topics && t in errors && errors[t].Refused? :: errors[t].text
  }

  function TopicEntry(st: Stats, name: string): TopicStats {
    if name in st.topics then st.topics[name] else NEW_TOPIC
  }

  function RecordFailure(st: Stats, topic: string, error: string, now: int): Stats {
    var ts := TopicEntry(st, topic);
    st.(topics := st.topics[topic := ts.(failedWrites := ts.failedWrites + 1, lastError := error, lastFailureAt := At(now))],
        failedWrites := st.failedWrites + 1, lastError := error, lastFailureAt := At(now))
  }

  function MarkTopic(st: Stats, name: string, failed: map<string, string>, now: int): Stats {
    var ts := TopicEntry(st, name);
    st.(topics := st.topics[name := if name in failed then ts.(ready := false, lastError := failed[name], lastFailureAt := At(now))
                                    else ts.(ready := true)])
  }

  function MarkTopics(st: Stats, names: seq<string>, failed: map<string, string>, now: int): Stats {
    if names == [] then st else MarkTopic(MarkTopics(st, names[..|names| - 1], failed, now), names[|names| - 1], failed, now)
  }

  /** The refusals in topic order, as one text. */
  function JoinErrors(topics: seq<string>, failed: map<string, string>): string {
    "create topics: " + JoinParts(topics, failed)
  }

  function JoinParts(topics: seq<string>, failed: map<string, string>): string {
    if topics == [] then ""
    else
      var init, t := JoinParts(topics[..|topics| - 1], failed), topics[|topics| - 1];
      if t !in failed then init else if init == "" then t + ": " + failed[t] else init + "; " + t + ": " + failed[t]
  }

  /** One attempt to create the topics. A request that fails says nothing about any topic. */
  function EnsureOnce(st: Stats, topics: seq<string>, reply: Reply, now: int): Stats {
    match reply
    case RequestFailed(text) => st.(topicsReady := false, lastError := text, lastFailureAt := At(now))
    case Replied(errors) =>
      var failed := FailedTopics(topics, errors);
      var marked := MarkTopics(st, topics, failed, now).(topicsReady := failed == map[]);
      if failed == map[] then marked else marked.(lastError := JoinErrors(topics, failed), lastFailureAt := At(now))
  }

  predicate Succeeds(topics: seq<string>, reply: Reply) {
    reply.Replied? && FailedTopics(topics, reply.errors) == map[]
  }

  // ----- The accounting -----

  ghost function SumFailed(topics: map<string, TopicStats>): nat {
    if topics == map[] then 0
    else
      var k :| k in topics;
      topics[k].failedWrites + SumFailed(topics - {k})
  }

  lemma {:induction false} SumSplits(topics: map<string, TopicStats>, k: string)
    requires k in topics
    ensures SumFailed(topics) == topics[k].failedWrites + SumFailed(topics - {k})
  {
    var j :| j in topics && SumFailed(topics) == topics[j].failedWrites + SumFailed(topics - {j});
    if j != k {
      SumSplits(topics - {j}, k);
      SumSplits(topics - {k}, j);
      assert topics - {j} - {k} == topics - {k} - {j};
    }
  }

  lemma SumUpdate(topics: map<string, TopicStats>, k: string, ts: TopicStats)
    ensures SumFailed(topics[k := ts]) == SumFailed(topics - {k}) + ts.failedWrites
    ensures SumFailed(topics) == SumFailed(topics - {k}) + (if k in topics then topics[k].failedWrites else 0)
  {
    SumSplits(topics[k := ts], k);
    assert topics[k := ts] - {k} == topics - {k};
    if k in topics {
      SumSplits(topics, k);
    } else {
      assert topics - {k} == topics;
    }
  }

  predicate AllReady(st: Stats, topics: seq<string>) {
    forall t <- topics :: t in st.topics && st.topics[t].ready
  }

  /** The steps of the store, in any order: failed deliveries, attempts to create the topics, connecting and closing. */
  datatype Action =
    | WriteFails(topic: string, error: string, now: int)
    | Ensure(reply: Reply, at: int)
    | Connected(up: bool)

  function Apply(st: Stats, topics: seq<string>, a: Action): Stats {
    match a
    case WriteFails(topic, error, now) => RecordFailure(st, topic, error, now)
    case Ensure(reply, now) => EnsureOnce(st, topics, reply, now)
    case Connected(up) => st.(connected := up)
  }

  function Run(topics: seq<string>, actions: seq<Action>): Stats {
    if actions == [] then DisconnectedStats() else Apply(Run(topics, actions[..|actions| - 1]), topics, actions[|actions| - 1])
  }

  /** Whether the last attempt got an answer. */
  function LastAttemptAnswered(actions: seq<Action>): bool {
    if actions == [] then false
    else
      var a := actions[|actions| - 1];
      if a.Ensure? then a.reply.Replied? else LastAttemptAnswered(actions[..|actions| - 1])
  }

  function CountFailures(actions: seq<Action>): nat {
    if actions == [] then 0
    else CountFailures(actions[..|actions| - 1]) + (if actions[|actions| - 1].WriteFails? then 1 else 0)
  }

  lemma MarkTopicSum(st: Stats, name: string, failed: map<string, string>, now: int)
    ensures SumFailed(MarkTopic(st, name, failed, now).topics) == SumFailed(st.topics)
  {
    SumUpdate(st.topics, name, MarkTopic(st, name, failed, now).topics[name]);
  }

  /** Marking sets each topic's readiness by the answer and moves no failure count. */
  lemma {:induction false} MarkTopicsEffect(st: Stats, names: seq<string>, failed: map<string, string>, now: int)
    ensures var r := MarkTopics(st, names, failed, now);
      && SumFailed(r.topics) == SumFailed(st.topics) && r.failedWrites == st.failedWrites
      && forall t <- names :: t in r.topics && r.topics[t].ready == (t !in failed)
  {
    if names != [] {
      var init := names[..|names| - 1];
      assert forall t <- names :: t in init || t == names[|names| - 1];
      MarkTopicsEffect(st, init, failed, now);
      MarkTopicSum(MarkTopics(st, init, failed, now), names[|names| - 1], failed, now);
    }
  }

  lemma EnsureEffect(st: Stats, topics: seq<string>, reply: Reply, now: int)
    ensures var r := EnsureOnce(st, topics, reply, now);
      && SumFailed(r.topics) == SumFailed(st.topics) && r.failedWrites == st.failedWrites
      && (r.topicsReady <==> Succeeds(topics, reply))
      && (reply.Replied? ==> (r.topicsReady <==> AllReady(r, topics)))
      && (reply.RequestFailed? ==> r.topics == st.topics)
  {
    if reply.Replied? {
      var failed := FailedTopics(topics, reply.errors);
      MarkTopicsEffect(st, topics, failed, now);
      if failed != map[] {
        var t :| t in failed;
        assert t in topics;
      }
    }
  }

  /** The topics an attempt fails on are the requested ones that the broker answered with an error other than that they
      already exist, each with that error. */
  lemma FailedAreRefused(topics: seq<string>, errors: map<string, TopicError>, t: string)
    ensures var failed := FailedTopics(topics, errors);
      && (t in failed <==> t in topics && t in errors && errors[t] != AlreadyExists)
      && (t in failed ==> errors[t] == Refused(failed[t]))
  {
  }

  /** After an answered attempt a requested topic is ready exactly when the broker reported no error for it, or that it
      already exists; a refused one carries the broker's error and the time, and no other field of any topic changes. The
      store calls its topics ready exactly when none was refused. */
  lemma AttemptOutcome(st: Stats, topics: seq<string>, errors: map<string, TopicError>, now: int, t: string)
    ensures var r := EnsureOnce(st, topics, Replied(errors), now);
      var was := if t in st.topics then st.topics[t] else TopicStats(false, 0, "", Never);
      && (r.topicsReady <==> forall u :: u in topics && u in errors ==> errors[u] == AlreadyExists)
      && (t !in topics ==> (t in r.topics <==> t in st.topics) && (t in st.topics ==> r.topics[t] == st.topics[t]))
      && (t in topics ==> t in r.topics)
      && (t in topics ==> r.topics[t] == if t in errors && errors[t].Refused?
                                         then was.(ready := false, lastError := errors[t].text, lastFailureAt := At(now))
                                         else was.(ready := true))
      && r.failedWrites == st.failedWrites && r.connected == st.connected
      && (r.topicsReady ==> r.lastError == st.lastError && r.lastFailureAt == st.lastFailureAt)
      && (!r.topicsReady ==> r.lastFailureAt == At(now))
  {
    var failed := FailedTopics(topics, errors);
    MarkTopicsOutcome(st, topics, failed, now, t);
    if failed == map[] {
      forall u | u in topics && u in errors ensures errors[u] == AlreadyExists {
        assert u !in failed;
      }
    } else {
      var u :| u in failed;
      assert u in topics && u in errors && errors[u] != AlreadyExists;
    }
  }

  lemma {:induction false} MarkTopicsOutcome(st: Stats, names: seq<string>, failed: map<string, string>, now: int, t: string)
    ensures var r := MarkTopics(st, names, failed, now);
      var was := TopicEntry(st, t);
      && r == st.(topics := r.topics)
      && (t !in names ==> (t in r.topics <==> t in st.topics) && (t in st.topics ==> r.topics[t] == st.topics[t]))
      && (t in names ==> t in r.topics)
      && (t in names ==> r.topics[t] == if t in failed
                                        then was.(ready := false, lastError := failed[t], lastFailureAt := At(now))
                                        else was.(ready := true))
  {
    if names != [] {
      var init, last := names[..|names| - 1], names[|names| - 1];
      assert t in names <==> t in init || t == last;
      MarkTopicsOutcome(st, init, failed, now, t);
    }
  }

  /** An attempt succeeds exactly when the broker answered and refused none of the requested topics; one that already exists
      is no refusal. Without an answer no topic changes and nothing is ready. */
  lemma AttemptSucceeds(st: Stats, topics: seq<string>, reply: Reply, now: int)
    ensures Succeeds(topics, reply) <==>
      reply.Replied? && forall u :: u in topics && u in reply.errors ==> reply.errors[u] == AlreadyExists
    ensures reply.RequestFailed? ==>
      EnsureOnce(st, topics, reply, now) == st.(topicsReady := false, lastError := reply.text, lastFailureAt := At(now))
  {
    if reply.Replied? {
      AttemptOutcome(st, topics, reply.errors, now, "");
      EnsureEffect(st, topics, reply, now);
    }
  }

  /** A failed write is counted once for its own topic and once in the total, and no other topic changes. */
  lemma FailureOutcome(st: Stats, topic: string, error: string, now: int, t: string)
    ensures var r := RecordFailure(st, topic, error, now);
      && topic in r.topics
      && r.topics[topic] == TopicStats(topic in st.topics && st.topics[topic].ready,
                                       (if topic in st.topics then st.topics[topic].failedWrites else 0) + 1, error, At(now))
      && (t != topic ==> (t in r.topics <==> t in st.topics) && (t in st.topics ==> r.topics[t] == st.topics[t]))
      && r.failedWrites == st.failedWrites + 1 && r.lastError == error && r.lastFailureAt == At(now)
      && r.connected == st.connected && r.topicsReady == st.topicsReady
  {
  }

  /** The texts with the separator between each two. */
  function Join(parts: seq<string>, separator: string): string {
    if parts == [] then "" else if |parts| == 1 then parts[0] else parts[0] + separator + Join(parts[1..], separator)
  }

  /** One part for each refused topic, in topic order. */
  function Parts(topics: seq<string>, errors: map<string, TopicError>): (p: seq<string>)
    ensures forall x :: x in p ==> x != ""
  {
    if topics == [] then [] else Part(topics[0], errors) + Parts(topics[1..], errors)
  }

  function Part(t: string, errors: map<string, TopicError>): (p: seq<string>)
    ensures forall x :: x in p ==> x != ""
  {
    if t in errors && errors[t].Refused? then [t + ": " + errors[t].text] else []
  }

  lemma {:induction false} JoinSnoc(parts: seq<string>, last: string, separator: string)
    ensures Join(parts + [last], separator) == if parts == [] then last else Join(parts, separator) + separator + last
  {
    if |parts| == 1 {
      assert (parts + [last])[1..] == [last];
    } else if |parts| > 1 {
      assert (parts + [last])[1..] == parts[1..] + [last];
      JoinSnoc(parts[1..], last, separator);
    }
  }

  lemma {:induction false} PartsSnoc(topics: seq<string>, t: string, errors: map<string, TopicError>)
    ensures Parts(topics + [t], errors) == Parts(topics, errors) + Part(t, errors)
  {
    if topics == [] {
      assert (topics + [t])[1..] == [];
    } else {
      assert (topics + [t])[1..] == topics[1..] + [t];
      PartsSnoc(topics[1..], t, errors);
    }
  }

  lemma JoinIsEmpty(parts: seq<string>, separator: string)
    requires forall x :: x in parts ==> x != ""
    ensures Join(parts, separator) == "" <==> parts == []
  {
    if parts != [] {
      assert parts[0] in parts;
      assert |Join(parts, separator)| >= |parts[0]| > 0;
    }
  }

  lemma {:induction false} PartsAreJoined(topics: seq<string>, failed: map<string, string>, errors: map<string, TopicError>)
    requires forall t | t in topics :: t in failed <==> t in errors && errors[t].Refused?
    requires forall t | t in topics && t in failed :: failed[t] == errors[t].text
    ensures JoinParts(topics, failed) == Join(Parts(topics, errors), "; ")
  {
    if topics != [] {
      var init, t := topics[..|topics| - 1], topics[|topics| - 1];
      assert topics == init + [t];
      PartsAreJoined(init, failed, errors);
      var p := Parts(init, errors);
      PartsSnoc(init, t, errors);
      JoinIsEmpty(p, "; ");
      if t !in failed {
        assert p + [] == p;
      } else {
        JoinSnoc(p, t + ": " + failed[t], "; ");
        var j := Join(p, "; ");
        assert j + "; " + (t + ": " + failed[t]) == j + "; " + t + ": " + failed[t];
      }
    }
  }

  /** The error kept after an attempt that was answered with refusals lists the refused topics with the broker's texts, in
      topic order, with "; " between them. */
  lemma ErrorsAreJoined(st: Stats, topics: seq<string>, errors: map<string, TopicError>, now: int)
    ensures var r := EnsureOnce(st, topics, Replied(errors), now);
      !r.topicsReady ==> r.lastError == "create topics: " + Join(Parts(topics, errors), "; ") && r.lastFailureAt == At(now)
  {
    PartsAreJoined(topics, FailedTopics(topics, errors), errors);
  }

  lemma {:induction false} DisconnectedSum(topics: map<string, TopicStats>)
    requires forall t <- topics :: topics[t].failedWrites == 0
    ensures SumFailed(topics) == 0
  {
    if topics != map[] {
      var k :| k in topics && SumFailed(topics) == topics[k].failedWrites + SumFailed(topics - {k});
      DisconnectedSum(topics - {k});
    }
  }

  /** After any interleaving of failed writes and attempts: the total is the sum over topics and counts every failed
      write once, and the store calls its topics ready exactly when each of them is and the last attempt was answered. */
  lemma {:induction false} AccountingHolds(topics: seq<string>, actions: seq<Action>)
    ensures var st := Run(topics, actions);
      && st.failedWrites == SumFailed(st.topics)
      && st.failedWrites == CountFailures(actions)
      && (st.topicsReady <==> LastAttemptAnswered(actions) && AllReady(st, topics))
  {
    if actions == [] {
      DisconnectedSum(DisconnectedStats().topics);
    } else {
      var init, a := actions[..|actions| - 1], actions[|actions| - 1];
      var st := Run(topics, init);
      AccountingHolds(topics, init);
      match a
      case WriteFails(topic, error, now) =>
        SumUpdate(st.topics, topic, RecordFailure(st, topic, error, now).topics[topic]);
        FailureKeepsReady(st, topics, topic, error, now);
      case Ensure(reply, now) => EnsureEffect(st, topics, reply, now);
      case Connected(_) =>
    }
  }

  lemma FailureKeepsReady(st: Stats, topics: seq<string>, topic: string, error: string, now: int)
    ensures AllReady(RecordFailure(st, topic, error, now), topics) <==> AllReady(st, topics)
  {
    var r := RecordFailure(st, topic, error, now);
    forall t ensures (t in r.topics && r.topics[t].ready) <==> (t in st.topics && st.topics[t].ready) {
    }
  }

  // ----- The backoff -----

  function Min(a: int, b: int): int {
    if a < b then a else b
  }

  function Pow2(k: nat): nat {
    if k == 0 then 1 else 2 * Pow2(k - 1)
  }

  /** The wait after the `k`-th doubling. */
  function Delay(initial: nat, max: nat, k: nat): nat {
    if k == 0 then initial else Min(2 * Delay(initial, max, k - 1), max)
  }

  lemma {:induction false} DelayAfterDoublings(initial: nat, max: nat, k: nat)
    requires k > 0
    ensures Delay(initial, max, k) == Min(initial * Pow2(k), max)
  {
    if k == 1 {
      assert Pow2(1) == 2 * Pow2(0);
    } else {
      DelayAfterDoublings(initial, max, k - 1);
      assert initial * Pow2(k) == 2 * (initial * Pow2(k - 1));
    }
  }

  /** Every wait is the initial one doubled that often and capped, exactly when the initial one does not exceed the cap. */
  lemma CappedExponential(initial: nat, max: nat)
    ensures (forall k: nat :: Delay(initial, max, k) == Min(initial * Pow2(k), max)) <==> initial <= max
  {
    forall k: nat | k > 0 ensures Delay(initial, max, k) == Min(initial * Pow2(k), max) {
      DelayAfterDoublings(initial, max, k);
    }
    assert Delay(initial, max, 0) == initial && initial * Pow2(0) == initial;
  }

  // ----- The store -----

  /** What one round of the loop meets: the answer, whether the loop was cancelled by then, and whether the wait ran out. */
  datatype Round = Round(reply: Reply, now: int, cancelled: bool, slept: bool)

  class Store {
    var stats: Stats
    const topics: seq<string>
    const initialBackoff: nat
    const maxBackoff: nat

    constructor (topics: seq<string>, initialBackoff: nat, maxBackoff: nat)
      ensures stats == DisconnectedStats() && this.topics == topics
      ensures this.initialBackoff == initialBackoff && this.maxBackoff == maxBackoff
    {
      stats := DisconnectedStats();
      this.topics, this.initialBackoff, this.maxBackoff := topics, initialBackoff, maxBackoff;
    }

    method SetConnected(up: bool)
      modifies this
      ensures stats == Apply(old(stats), topics, Connected(up))
    {
      stats := stats.(connected := up);
    }

    method RecordWriteFailure(topic: string, error: string, now: int)
      modifies this
      ensures stats == Apply(old(stats), topics, WriteFails(topic, error, now))
    {
      var ts := if topic in stats.topics then stats.topics[topic] else NEW_TOPIC;
      ts := ts.(failedWrites := ts.failedWrites + 1, lastError := error, lastFailureAt := At(now));
      stats := stats.(topics := stats.topics[topic := ts]);
      stats := stats.(failedWrites := stats.failedWrites + 1, lastError := error, lastFailureAt := At(now));
    }

    method CollectFailed(errors: map<string, TopicError>) returns (failed: map<string, string>)
      ensures failed == FailedTopics(topics, errors)
    {
      failed := map[];
      for i := 0 to |topics|
        invariant failed == FailedTopics(topics[..i], errors)
      {
        if topics[i] in errors && errors[topics[i]].Refused? {
          failed := failed[topics[i] := errors[topics[i]].text];
        }
        assert topics[..i + 1] == topics[..i] + [topics[i]];
      }
      assert topics[..|topics|] == topics;
    }

    method EnsureTopicsOnce(reply: Reply, now: int) returns (ok: bool)
      modifies this
      ensures stats == Apply(old(stats), topics, Ensure(reply, now)) && ok == Succeeds(topics, reply)
      ensures ok == stats.topicsReady
    {
      EnsureEffect(stats, topics, reply, now);
      if reply.RequestFailed? {
        stats := stats.(topicsReady := false, lastError := reply.text, lastFailureAt := At(now));
        return false;
      }
      var failed := CollectFailed(reply.errors);
      for i := 0 to |topics|
        invariant stats == MarkTopics(old(stats), topics[..i], failed, now)
      {
        var ts := if topics[i] in stats.topics then stats.topics[topics[i]] else NEW_TOPIC;
        if topics[i] in failed {
          ts := ts.(ready := false, lastError := failed[topics[i]], lastFailureAt := At(now));
        } else {
          ts := ts.(ready := true);
        }
        stats := stats.(topics := stats.topics[topics[i] := ts]);
        assert topics[..i + 1][..i] == topics[..i];
      }
      assert topics[..|topics|] == topics;
      stats := stats.(topicsReady := |failed| == 0);
      if |failed| > 0 {
        stats := stats.(lastError := JoinErrors(topics, failed), lastFailureAt := At(now));
      }
      ok := |failed| == 0;
    }

    /** Retries until every topic exists or the loop is cancelled; `rounds` is what it meets. The waits it asks for
        are the doubled and capped ones, in order, and it gives up only when it is cancelled after a refusal or while it
        waits, unless `rounds` ends first. */
    method EnsureTopicsLoop(rounds: seq<Round>) returns (delays: seq<nat>, done: bool)
      modifies this
      ensures forall k :: 0 <= k < |delays| ==> delays[k] == Delay(initialBackoff, maxBackoff, k)
      ensures |delays| <= |rounds|
      ensures done ==> stats.topicsReady && |delays| < |rounds| && Succeeds(topics, rounds[|delays|].reply)
      ensures forall k :: 0 <= k < |delays| ==> !Succeeds(topics, rounds[k].reply) && !rounds[k].cancelled
      ensures forall k :: 0 <= k < |delays| - 1 ==> rounds[k].slept
      ensures !done ==>
        || (|delays| == |rounds| && forall k :: 0 <= k < |rounds| ==> rounds[k].slept)
        || (0 < |delays| && !rounds[|delays| - 1].slept)
        || (|delays| < |rounds| && !Succeeds(topics, rounds[|delays|].reply) && rounds[|delays|].cancelled)
    {
      var backoff := initialBackoff;
      delays := [];
      for i := 0 to |rounds|
        invariant |delays| == i && backoff == Delay(initialBackoff, maxBackoff, i)
        invariant forall k :: 0 <= k < i ==> delays[k] == Delay(initialBackoff, maxBackoff, k)
        invariant forall k :: 0 <= k < i ==> !Succeeds(topics, rounds[k].reply) && !rounds[k].cancelled && rounds[k].slept
      {
        var ok := EnsureTopicsOnce(rounds[i].reply, rounds[i].now);
        if ok {
          return delays, true;
        }
        if rounds[i].cancelled {
          return delays, false;
        }
        delays := delays + [backoff];
        if !rounds[i].slept {
          return delays, false;
        }
        backoff := if 2 * backoff < maxBackoff then 2 * backoff else maxBackoff;
      }
      done := false;
    }
  }
}
