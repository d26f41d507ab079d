/** The replay cache: a 32-slot ring for every node, and the simple window it stands for. */
module Replay {
  import opened Bytes

  const SLOTS := 32

  /** The epoch and sequence number of a message. */
  type Pair = (nat, nat)

  const BLANK_PAIR: Pair := (0, 0)

  // ----- The window -----

  /** The last 32 pairs recorded. */
  function LastRecorded(recorded: seq<Pair>): seq<Pair> {
    if |recorded| <= SLOTS then recorded else recorded[|recorded| - SLOTS..]
  }

  predicate IsDuplicateOf(recorded: seq<Pair>, p: Pair) {
    p != BLANK_PAIR && p in LastRecorded(recorded)
  }

  function Record(recorded: seq<Pair>, p: Pair): seq<Pair> {
    if IsDuplicateOf(recorded, p) then recorded else recorded + [p]
  }

  /** Before it fills up, the ring's unused slots hold blank pairs. */
  function Window(recorded: seq<Pair>): (w: seq<Pair>)
    ensures |w| == SLOTS
  {
    if |recorded| < SLOTS then seq(SLOTS - |recorded|, _ => BLANK_PAIR) + recorded else recorded[|recorded| - SLOTS..]
  }

  lemma WindowDecides(recorded: seq<Pair>, p: Pair)
    ensures IsDuplicateOf(recorded, p) <==> p != BLANK_PAIR && p in Window(recorded)
  {
    if |recorded| < SLOTS {
      var w := Window(recorded);
      if p in recorded {
        var i :| 0 <= i < |recorded| && recorded[i] == p;
        assert w[SLOTS - |recorded| + i] == p;
      }
    }
  }

  lemma WindowSlides(recorded: seq<Pair>, p: Pair)
    ensures Window(recorded + [p]) == Window(recorded)[1..] + [p]
  {
  }

  // ----- The ring -----

  class NodeBuf {
    const buf: array<Pair>
    var idx: nat
    ghost var recorded: seq<Pair>

    /** Read from `idx` on and around, the ring is the window. */
    ghost predicate Valid()
      reads this, buf
    {
      buf.Length == SLOTS && idx < SLOTS && buf[idx..] + buf[..idx] == Window(recorded)
    }

    constructor ()
      ensures Valid() && recorded == [] && fresh(buf)
    {
      buf := new Pair[SLOTS](_ => BLANK_PAIR);
      idx := 0;
      recorded := [];
    }

    /** True for a pair in the window; any other pair overwrites the oldest slot. */
    method CheckAndRecord(p: Pair) returns (duplicate: bool)
      requires Valid()
      modifies this, buf
      ensures Valid() && duplicate == IsDuplicateOf(old(recorded), p) && recorded == Record(old(recorded), p)
    {
      ghost var window := buf[idx..] + buf[..idx];
      assert forall q :: q in window <==> q in buf[..];
      WindowDecides(recorded, p);
      for i := 0 to SLOTS
        invariant p == BLANK_PAIR || p !in buf[..i]
      {
        if buf[i] == p && (buf[i].0 != 0 || buf[i].1 != 0) {
          assert buf[..][i] == p;
          return true;
        }
      }
      assert buf[..SLOTS] == buf[..];
      WindowSlides(recorded, p);
      buf[idx] := p;
      ghost var at := idx;
      idx := (idx + 1) % SLOTS;
      recorded := recorded + [p];
      RingSlides(old(buf[..]), at, p);
      assert buf[..] == old(buf[..])[at := p];
      duplicate := false;
    }
  }

  /** Overwriting the slot at `at` and moving on drops the oldest pair and appends the new one. */
  lemma RingSlides(ring: seq<Pair>, at: nat, p: Pair)
    requires |ring| == SLOTS && at < SLOTS
    ensures var next := (at + 1) % SLOTS;
      ring[at := p][next..] + ring[at := p][..next] == (ring[at..] + ring[..at])[1..] + [p]
  {
  }

  // ----- The cache -----

  class ReplayCache {
    var nodes: map<Mac, NodeBuf>
    ghost var Repr: set<object>

    /** Every node has its own ring. */
    ghost predicate Valid()
      reads this, Repr
    {
      && this in Repr
      && (forall m | m in nodes :: nodes[m] in Repr && nodes[m].buf in Repr && nodes[m].Valid())
      && (forall m, n | m in nodes && n in nodes && m != n :: nodes[m] != nodes[n] && nodes[m].buf != nodes[n].buf)
    }

    ghost function Recorded(mac: Mac): seq<Pair>
      requires Valid()
      reads this, Repr
    {
      if mac in nodes then nodes[mac].recorded else []
    }

    constructor ()
      ensures Valid() && nodes == map[] && fresh(Repr)
    {
      nodes := map[];
      Repr := {this};
    }

    /** Gives the node a ring when it has none yet. */
    method EnsureRing(mac: Mac)
      requires Valid()
      modifies this
      ensures Valid() && mac in nodes && fresh(Repr - old(Repr))
      ensures forall m: Mac :: Recorded(m) == old(Recorded(m))
    {
      if mac !in nodes {
        var nb := new NodeBuf();
        nodes := nodes[mac := nb];
        Repr := Repr + {nb, nb.buf};
      }
    }

    method Check(mac: Mac, p: Pair) returns (duplicate: bool)
      requires Valid() && mac in nodes
      modifies Repr
      ensures Valid() && Repr == old(Repr)
      ensures duplicate == IsDuplicateOf(old(Recorded(mac)), p)
      ensures Recorded(mac) == Record(old(Recorded(mac)), p)
      ensures forall m: Mac :: m != mac ==> Recorded(m) == old(Recorded(m))
    {
      var nb := nodes[mac];
      duplicate := nb.CheckAndRecord(p);
      assert forall m | m in nodes && m != mac :: nodes[m].Valid();
    }

    method IsDuplicate(mac: Mac, epoch: nat, seqNum: nat) returns (duplicate: bool)
      requires Valid()
      modifies Repr
      ensures Valid() && fresh(Repr - old(Repr))
      ensures duplicate == IsDuplicateOf(old(Recorded(mac)), (epoch, seqNum))
      ensures Recorded(mac) == Record(old(Recorded(mac)), (epoch, seqNum))
      ensures forall m: Mac :: m != mac ==> Recorded(m) == old(Recorded(m))
    {
      EnsureRing(mac);
      duplicate := Check(mac, (epoch, seqNum));
    }
  }

  // ----- Call sequences -----

  datatype Call = Call(mac: Mac, pair: Pair)

  /** What the cache has recorded for `mac` after the calls, by the contract of IsDuplicate. */
  function RecordedAfter(calls: seq<Call>, mac: Mac): seq<Pair> {
    if calls == [] then []
    else
      var c := calls[|calls| - 1];
      var before := RecordedAfter(calls[..|calls| - 1], mac);
      if c.mac == mac then Record(before, c.pair) else before
  }

  function CallsFor(calls: seq<Call>, mac: Mac): seq<Pair> {
    if calls == [] then []
    else
      var c := calls[|calls| - 1];
      CallsFor(calls[..|calls| - 1], mac) + (if c.mac == mac then [c.pair] else [])
  }

  function RecordAll(pairs: seq<Pair>): seq<Pair> {
    if pairs == [] then [] else Record(RecordAll(pairs[..|pairs| - 1]), pairs[|pairs| - 1])
  }

  /** Calls for other addresses never matter. */
  lemma {:induction false} OthersDoNotMatter(calls: seq<Call>, mac: Mac)
    ensures RecordedAfter(calls, mac) == RecordAll(CallsFor(calls, mac))
  {
    if calls != [] {
      var init := calls[..|calls| - 1];
      OthersDoNotMatter(init, mac);
      if calls[|calls| - 1].mac == mac {
        var all := CallsFor(calls, mac);
        assert all[..|all| - 1] == CallsFor(init, mac);
      } else {
        assert CallsFor(calls, mac) == CallsFor(init, mac);
      }
    }
  }

  ghost predicate Distinct(pairs: seq<Pair>) {
    forall i, j :: 0 <= i < j < |pairs| && pairs[i] != BLANK_PAIR ==> pairs[i] != pairs[j]
  }

  lemma DistinctSlides(recorded: seq<Pair>, p: Pair)
    requires Distinct(LastRecorded(recorded)) && !IsDuplicateOf(recorded, p)
    ensures Distinct(LastRecorded(recorded + [p]))
  {
    var was, now := LastRecorded(recorded), LastRecorded(recorded + [p]);
    var d := |was| + 1 - |now|;
    forall i, j | 0 <= i < j < |now| && now[i] != BLANK_PAIR ensures now[i] != now[j] {
      assert now[i] == was[d + i];
      assert j < |now| - 1 ==> now[j] == was[d + j];
    }
  }

  /** The window never holds a pair twice, except blank ones, which are never duplicates. */
  lemma {:induction false} WindowIsDistinct(pairs: seq<Pair>)
    ensures Distinct(LastRecorded(RecordAll(pairs)))
  {
    if pairs != [] {
      var before, p := RecordAll(pairs[..|pairs| - 1]), pairs[|pairs| - 1];
      WindowIsDistinct(pairs[..|pairs| - 1]);
      if !IsDuplicateOf(before, p) {
        DistinctSlides(before, p);
      }
    }
  }

  lemma {:induction false} RecordAllGrows(pairs: seq<Pair>, more: seq<Pair>)
    ensures RecordAll(pairs) <= RecordAll(pairs + more)
    ensures |RecordAll(pairs + more)| <= |RecordAll(pairs)| + |more|
  {
    if more == [] {
      assert pairs + more == pairs;
    } else {
      var init := more[..|more| - 1];
      assert (pairs + more)[..|pairs + more| - 1] == pairs + init;
      RecordAllGrows(pairs, init);
    }
  }

  // ----- Which replays are caught -----

  /** The `k`-th call found its pair new, and recorded it. */
  predicate IsRecorded(pairs: seq<Pair>, k: nat) {
    k < |pairs| && !IsDuplicateOf(RecordAll(pairs[..k]), pairs[k])
  }

  /** How many pairs the calls after the `k`-th recorded. */
  function RecordedSince(pairs: seq<Pair>, k: nat): int
    requires k < |pairs|
  {
    |RecordAll(pairs)| - |RecordAll(pairs[..k + 1])|
  }

  lemma {:induction false} SomeCallRecordedIt(pairs: seq<Pair>, i: nat) returns (k: nat)
    requires i < |RecordAll(pairs)|
    ensures IsRecorded(pairs, k) && pairs[k] == RecordAll(pairs)[i] && |RecordAll(pairs[..k])| == i
  {
    var init := pairs[..|pairs| - 1];
    if i < |RecordAll(init)| {
      k := SomeCallRecordedIt(init, i);
      assert pairs[..k] == init[..k];
    } else {
      k := |pairs| - 1;
    }
  }

  lemma RecordedByCall(pairs: seq<Pair>, k: nat)
    requires IsRecorded(pairs, k)
    ensures RecordAll(pairs[..k + 1]) == RecordAll(pairs[..k]) + [pairs[k]]
    ensures RecordAll(pairs[..k + 1]) <= RecordAll(pairs)
  {
    assert pairs[..k + 1][..k] == pairs[..k];
    assert pairs == pairs[..k + 1] + pairs[k + 1..];
    RecordAllGrows(pairs[..k + 1], pairs[k + 1..]);
  }

  /** Some call recorded `p`, and fewer than 32 pairs were recorded since. */
  ghost predicate RecordedLately(pairs: seq<Pair>, p: Pair) {
    exists k :: 0 <= k < |pairs| && IsRecorded(pairs, k) && pairs[k] == p && RecordedSince(pairs, k) < SLOTS
  }

  lemma InWindow(recorded: seq<Pair>, i: nat)
    requires i < |recorded| && |recorded| - i <= SLOTS
    ensures recorded[i] in LastRecorded(recorded)
  {
    var w := LastRecorded(recorded);
    assert w[i - (|recorded| - |w|)] == recorded[i];
  }

  lemma PlaceOf(recorded: seq<Pair>, p: Pair) returns (i: nat)
    requires p in LastRecorded(recorded)
    ensures i < |recorded| && |recorded| - i <= SLOTS && recorded[i] == p
  {
    var w := LastRecorded(recorded);
    var j :| 0 <= j < |w| && w[j] == p;
    i := |recorded| - |w| + j;
  }

  lemma CaughtWasRecorded(pairs: seq<Pair>, p: Pair)
    requires p in LastRecorded(RecordAll(pairs))
    ensures RecordedLately(pairs, p)
  {
    var i := PlaceOf(RecordAll(pairs), p);
    var k := SomeCallRecordedIt(pairs, i);
    RecordedByCall(pairs, k);
    assert IsRecorded(pairs, k) && pairs[k] == p && RecordedSince(pairs, k) < SLOTS;
  }

  lemma RecordedIsCaught(pairs: seq<Pair>, p: Pair)
    requires RecordedLately(pairs, p)
    ensures p in LastRecorded(RecordAll(pairs))
  {
    var k :| 0 <= k < |pairs| && IsRecorded(pairs, k) && pairs[k] == p && RecordedSince(pairs, k) < SLOTS;
    RecordedByCall(pairs, k);
    InWindow(RecordAll(pairs), |RecordAll(pairs[..k])|);
  }

  /** After any calls, a message is caught as a replay exactly when some call recorded it and fewer than 32 pairs were
      recorded since. Calls that were caught themselves record nothing, and so do not count. */
  lemma ReplayIsCaught(pairs: seq<Pair>, p: Pair)
    ensures IsDuplicateOf(RecordAll(pairs), p) <==> p != BLANK_PAIR && RecordedLately(pairs, p)
  {
    if p in LastRecorded(RecordAll(pairs)) {
      CaughtWasRecorded(pairs, p);
    }
    if RecordedLately(pairs, p) {
      RecordedIsCaught(pairs, p);
    }
  }

  /** In particular a message that was found new is caught when it comes again after fewer than 32 others. */
  lemma NewMessageIsCaughtAgain(before: seq<Pair>, p: Pair, between: seq<Pair>)
    requires p != BLANK_PAIR && |between| < SLOTS && !IsDuplicateOf(RecordAll(before), p)
    ensures IsDuplicateOf(RecordAll(before + [p] + between), p)
  {
    var pairs, k := before + [p] + between, |before|;
    assert pairs[..k] == before && pairs[..k + 1] == before + [p];
    RecordAllGrows(before + [p], between);
    assert IsRecorded(pairs, k) && pairs[k] == p && RecordedSince(pairs, k) < SLOTS;
    ReplayIsCaught(pairs, p);
  }

  lemma NotInWindow(recorded: seq<Pair>, p: Pair)
    requires p !in recorded
    ensures p !in LastRecorded(recorded)
  {
  }

  lemma {:induction false} NewPairsAreRecorded(pairs: seq<Pair>)
    requires forall i, j :: 0 <= i < j < |pairs| ==> pairs[i] != pairs[j]
    ensures RecordAll(pairs) == pairs
  {
    if pairs != [] {
      NewPairsAreRecorded(pairs[..|pairs| - 1]);
      NotInWindow(pairs[..|pairs| - 1], pairs[|pairs| - 1]);
    }
  }

  /** But not one that was caught: it does not refresh its slot. A message, 31 others, and the message again, which is
      caught; after one new message more it is accepted, with that single message in between. */
  lemma CaughtReplaySlipsThrough(p: Pair, others: seq<Pair>)
    requires p != BLANK_PAIR && |others| == SLOTS && p !in others
    requires forall i, j :: 0 <= i < j < |others| ==> others[i] != others[j]
    ensures var first := [p] + others[..SLOTS - 1];
      && IsDuplicateOf(RecordAll(first), p)
      && !IsDuplicateOf(RecordAll(first + [p] + [others[SLOTS - 1]]), p)
  {
    var first, last := [p] + others[..SLOTS - 1], others[SLOTS - 1];
    NewPairsAreRecorded(first);
    assert first[0] == p;
    assert (first + [p])[..|first|] == first && (first + [p] + [last])[..|first| + 1] == first + [p];
    assert RecordAll(first + [p]) == first;
    assert last !in first;
    assert RecordAll(first + [p] + [last]) == first + [last];
    assert LastRecorded(first + [last]) == others;
  }
}
