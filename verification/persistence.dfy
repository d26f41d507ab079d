/** Saving and loading the two registries, at the level of entry lists. A loaded table is keyed by the text of each entry,
    as the program's maps are. */
module Persistence {
  import opened Bytes
  import opened Clock
  import opened MacText
  import Nodes
  import Auth
  import Hub

  // ----- The node registry -----

  /** A saved node: its address as text, and its other fields. */
  datatype NodeEntry = NodeEntry(
    mac: string,
    adapterType: int,
    uptime: nat,
    lastSeen: Stamp,
    hopCount: nat,
    nodeID: byte,
    name: string,
    zone: string,
    status: string,
    replacedBy: string,
    routePath: seq<string>,
    parentID: Option<byte>)

  function SaveNode(n: Nodes.NodeInfo): NodeEntry {
    NodeEntry(MacToString(n.mac), n.adapterType, n.uptime, n.lastSeen, n.hopCount, n.nodeID, n.name, n.zone, n.status,
              n.replacedBy, n.routePath, n.parentID)
  }

  function NodeFrom(mac: Bytes, e: NodeEntry): Nodes.NodeInfo {
    Nodes.NodeInfo(mac, e.adapterType, e.uptime, e.lastSeen, e.hopCount, e.nodeID, e.name, e.zone, e.status,
                   e.replacedBy, e.routePath, e.parentID)
  }

  function SaveNodes(t: Nodes.Table, order: seq<Bytes>): seq<NodeEntry>
    requires forall k <- order :: k in t
  {
    if order == [] then []
    else
      var init := order[..|order| - 1];
      assert forall k <- init :: k in order;
      SaveNodes(t, init) + [SaveNode(t[order[|order| - 1]])]
  }

  /** An entry whose address does not parse is skipped. */
  function LoadNode(loaded: map<string, Nodes.NodeInfo>, e: NodeEntry): map<string, Nodes.NodeInfo> {
    match StringToMac(e.mac)
    case None => loaded
    case Some(mac) => loaded[e.mac := NodeFrom(mac, e)]
  }

  function LoadNodes(entries: seq<NodeEntry>): map<string, Nodes.NodeInfo> {
    if entries == [] then map[] else LoadNode(LoadNodes(entries[..|entries| - 1]), entries[|entries| - 1])
  }

  /** Loading one saved entry files it under its own key if its address has six bytes, and leaves every other key alone. */
  lemma LoadOneNode(loaded: map<string, Nodes.NodeInfo>, n: Nodes.NodeInfo, k: Bytes)
    ensures var r := LoadNode(loaded, SaveNode(n));
      if k == n.mac && |k| == 6 then MacToString(k) in r && r[MacToString(k)] == n
      else (MacToString(k) in r <==> MacToString(k) in loaded)
           && (MacToString(k) in loaded ==> r[MacToString(k)] == loaded[MacToString(k)])
  {
    KeyRoundTrip(n.mac);
    if MacToString(k) == MacToString(n.mac) {
      MacToStringInjective(k, n.mac);
    }
  }

  /** Saved in any order and loaded into an empty registry, exactly the entries with six-byte addresses come back, each
      unchanged and under its own key; entries of any other address length are lost, and nothing else appears. */
  lemma {:induction false} NodesRoundTrip(t: Nodes.Table, order: seq<Bytes>, k: Bytes)
    requires Nodes.Keyed(t) && forall j <- order :: j in t
    ensures var loaded := LoadNodes(SaveNodes(t, order));
      && (MacToString(k) in loaded <==> k in order && |k| == 6)
      && (k in order && |k| == 6 ==> loaded[MacToString(k)] == t[k])
  {
    if order != [] {
      var init, j := order[..|order| - 1], order[|order| - 1];
      assert forall i <- init :: i in order;
      assert forall i <- order :: i in init || i == j;
      NodesRoundTrip(t, init, k);
      var entries := SaveNodes(t, order);
      assert entries[..|entries| - 1] == SaveNodes(t, init);
      LoadOneNode(LoadNodes(SaveNodes(t, init)), t[j], k);
    }
  }

  lemma {:induction false} LoadedKeysAreSaved(t: Nodes.Table, order: seq<Bytes>, key: string)
    requires Nodes.Keyed(t) && (forall j <- order :: j in t) && key in LoadNodes(SaveNodes(t, order))
    ensures exists k :: k in order && key == MacToString(k)
  {
    if order != [] {
      var init, j := order[..|order| - 1], order[|order| - 1];
      assert forall i <- init :: i in order;
      var entries := SaveNodes(t, order);
      assert entries[..|entries| - 1] == SaveNodes(t, init);
      if key in LoadNodes(SaveNodes(t, init)) {
        LoadedKeysAreSaved(t, init, key);
        var k :| k in init && key == MacToString(k);
        assert k in order;
      } else {
        assert key == MacToString(j) && j in order;
      }
    }
  }

  lemma {:induction false} EachNodeIsSaved(t: Nodes.Table, order: seq<Bytes>)
    requires forall j <- order :: j in t
    ensures |SaveNodes(t, order)| == |order| && forall k <- order :: SaveNode(t[k]) in SaveNodes(t, order)
  {
    if order != [] {
      var init := order[..|order| - 1];
      assert forall i <- init :: i in order;
      assert forall k <- order :: k in init || k == order[|order| - 1];
      EachNodeIsSaved(t, init);
    }
  }

  method PersistNodes(t: Nodes.Table) returns (entries: seq<NodeEntry>, ghost order: seq<Bytes>)
    ensures Hub.IsOrder(order, t.Keys) && entries == SaveNodes(t, order)
    ensures |entries| == |t| && forall k <- t :: SaveNode(t[k]) in entries
  {
    entries, order := [], [];
    var todo := t.Keys;
    while todo != {}
      invariant todo <= t.Keys && Hub.IsOrder(order, t.Keys - todo)
      invariant entries == SaveNodes(t, order)
      invariant |order| + |todo| == |t|
      decreases todo
    {
      var k :| k in todo;
      entries := entries + [SaveNode(t[k])];
      assert (order + [k])[..|order|] == order;
      order := order + [k];
      todo := todo - {k};
    }
    EachNodeIsSaved(t, order);
  }

  method LoadNodeEntries(entries: seq<NodeEntry>) returns (loaded: map<string, Nodes.NodeInfo>)
    ensures loaded == LoadNodes(entries)
  {
    loaded := map[];
    for i := 0 to |entries|
      invariant loaded == LoadNodes(entries[..i])
    {
      assert entries[..i + 1][..i] == entries[..i];
      var mac := StringToMac(entries[i].mac);
      if mac.Some? {
        loaded := loaded[entries[i].mac := NodeFrom(mac.value, entries[i])];
      }
    }
    assert entries[..|entries|] == entries;
  }

  // ----- The trust registry -----

  const NANOS := 1_000_000_000
  const ZERO_TIME_UNIX := -62135596800  // the zero time, in seconds before 1970

  /** Times are saved as whole seconds. */
  function ToUnix(s: Stamp): int {
    match s
    case Never => ZERO_TIME_UNIX
    case At(t) => t / NANOS
  }

  function FromUnix(seconds: int): Stamp {
    if seconds == ZERO_TIME_UNIX then Never else At(seconds * NANOS)
  }

  datatype AuthEntry = AuthEntry(mac: string, publicKey: string, status: Auth.TrustStatus, receivedAt: int, approvedAt: int)

  function SaveAuth(n: Auth.NodeAuth): AuthEntry {
    AuthEntry(MacToString(n.mac), HexEncode(n.publicKey), n.status, ToUnix(n.receivedAt), ToUnix(n.approvedAt))
  }

  function ParsePublicKey(s: string): (r: Option<Bytes>)
    ensures r.Some? ==> |r.value| == 32
  {
    match HexDecode(s)
    case Some(b) => if |b| == 32 then Some(b) else None
    case None => None
  }

  /** An entry whose address or key does not parse is skipped. */
  function LoadAuth(loaded: map<string, Auth.NodeAuth>, e: AuthEntry): map<string, Auth.NodeAuth> {
    match (ParseMac(e.mac), ParsePublicKey(e.publicKey))
    case (Some(mac), Some(key)) =>
      loaded[e.mac := Auth.NodeAuth(mac, key, e.status, FromUnix(e.receivedAt), FromUnix(e.approvedAt))]
    case _ => loaded
  }

  function SaveAuths(t: Auth.Table, order: seq<Mac>): seq<AuthEntry>
    requires forall k <- order :: k in t
  {
    if order == [] then []
    else
      var init := order[..|order| - 1];
      assert forall k <- init :: k in order;
      SaveAuths(t, init) + [SaveAuth(t[order[|order| - 1]])]
  }

  function LoadAuths(entries: seq<AuthEntry>): map<string, Auth.NodeAuth> {
    if entries == [] then map[] else LoadAuth(LoadAuths(entries[..|entries| - 1]), entries[|entries| - 1])
  }

  /** A record as it comes back: its times cut to whole seconds. */
  function WholeSeconds(n: Auth.NodeAuth): Auth.NodeAuth {
    n.(receivedAt := CutToSecond(n.receivedAt), approvedAt := CutToSecond(n.approvedAt))
  }

  function CutToSecond(s: Stamp): Stamp {
    match s
    case Never => Never
    case At(t) => At(t - t % NANOS)
  }

  predicate AfterZeroTime(s: Stamp) {
    s.At? ==> s.t >= (ZERO_TIME_UNIX + 1) * NANOS
  }

  lemma AuthEntryRoundTrip(loaded: map<string, Auth.NodeAuth>, n: Auth.NodeAuth)
    requires AfterZeroTime(n.receivedAt) && AfterZeroTime(n.approvedAt)
    ensures LoadAuth(loaded, SaveAuth(n)) == loaded[MacToString(n.mac) := WholeSeconds(n)]
  {
    KeyRoundTrip(n.mac);
    HexRoundTrip(n.publicKey);
    SecondsRoundTrip(n.receivedAt);
    SecondsRoundTrip(n.approvedAt);
  }

  /** Every record comes back under its own key, with its times cut to whole seconds and nothing else changed. */
  lemma {:induction false} AuthRoundTrip(t: Auth.Table, order: seq<Mac>, k: Mac)
    requires forall m <- order :: m in t && t[m].mac == m
    requires forall m <- order :: AfterZeroTime(t[m].receivedAt) && AfterZeroTime(t[m].approvedAt)
    ensures var loaded := LoadAuths(SaveAuths(t, order));
      && (MacToString(k) in loaded <==> k in order)
      && (k in order ==> loaded[MacToString(k)] == WholeSeconds(t[k]))
  {
    if order != [] {
      var init, j := order[..|order| - 1], order[|order| - 1];
      assert forall i <- init :: i in order;
      assert forall i <- order :: i in init || i == j;
      AuthRoundTrip(t, init, k);
      var entries := SaveAuths(t, order);
      assert entries[..|entries| - 1] == SaveAuths(t, init);
      AuthEntryRoundTrip(LoadAuths(SaveAuths(t, init)), t[j]);
      if MacToString(k) == MacToString(j) {
        MacToStringInjective(k, j);
      }
    }
  }

  lemma SecondsRoundTrip(s: Stamp)
    requires AfterZeroTime(s)
    ensures FromUnix(ToUnix(s)) == CutToSecond(s)
  {
  }

  lemma {:induction false} EachAuthIsSaved(t: Auth.Table, order: seq<Mac>)
    requires forall j <- order :: j in t
    ensures |SaveAuths(t, order)| == |order| && forall k <- order :: SaveAuth(t[k]) in SaveAuths(t, order)
  {
    if order != [] {
      var init := order[..|order| - 1];
      assert forall i <- init :: i in order;
      assert forall k <- order :: k in init || k == order[|order| - 1];
      EachAuthIsSaved(t, init);
    }
  }

  method PersistAuths(t: Auth.Table) returns (entries: seq<AuthEntry>, ghost order: seq<Mac>)
    ensures Hub.IsOrder(order, t.Keys) && entries == SaveAuths(t, order)
    ensures |entries| == |t| && forall k <- t :: SaveAuth(t[k]) in entries
  {
    entries, order := [], [];
    var todo := t.Keys;
    while todo != {}
      invariant todo <= t.Keys && Hub.IsOrder(order, t.Keys - todo)
      invariant entries == SaveAuths(t, order)
      invariant |order| + |todo| == |t|
      decreases todo
    {
      var k :| k in todo;
      entries := entries + [SaveAuth(t[k])];
      assert (order + [k])[..|order|] == order;
      order := order + [k];
      todo := todo - {k};
    }
    EachAuthIsSaved(t, order);
  }

  method LoadAuthEntries(entries: seq<AuthEntry>) returns (loaded: map<string, Auth.NodeAuth>)
    ensures loaded == LoadAuths(entries)
  {
    loaded := map[];
    for i := 0 to |entries|
      invariant loaded == LoadAuths(entries[..i])
    {
      assert entries[..i + 1][..i] == entries[..i];
      var e := entries[i];
      var mac := ParseMac(e.mac);
      if mac.None? {
        continue;
      }
      var key := ParsePublicKey(e.publicKey);
      if key.None? {
        continue;
      }
      loaded := loaded[e.mac := Auth.NodeAuth(mac.value, key.value, e.status, FromUnix(e.receivedAt), FromUnix(e.approvedAt))];
    }
    assert entries[..|entries|] == entries;
  }
}
