/** The trust registry: who asked to join, with which key, and what the administrator decided. */
module Auth {
  import opened Bytes
  import opened Clock

  datatype TrustStatus = Pending | Approved | Rejected

  datatype NodeAuth = NodeAuth(mac: Mac, publicKey: Key, status: TrustStatus, receivedAt: Stamp, approvedAt: Stamp)

  type Table = map<Mac, NodeAuth>

  /** The one request that is not filed as pending: an approved node repeating the approved key. */
  predicate IsRepeat(t: Table, mac: Mac, key: Key) {
    mac in t && t[mac].status == Approved && t[mac].publicKey == key
  }

  /** A repeat only refreshes its time. A new key under an approved address drops the record back to
      pending; so does any request for a pending or rejected one, so a rejection does not last. */
  function AddPending(t: Table, mac: Mac, key: Key, now: int): Table {
    if IsRepeat(t, mac, key) then t[mac := t[mac].(receivedAt := At(now))]
    else t[mac := NodeAuth(mac, key, Pending, At(now), Never)]
  }

  function Approve(t: Table, mac: Mac, now: int): Table {
    if mac !in t then t else t[mac := t[mac].(status := Approved, approvedAt := At(now))]
  }

  function Reject(t: Table, mac: Mac): Table {
    if mac !in t then t else t[mac := t[mac].(status := Rejected)]
  }

  class Registry {
    var nodes: Table

    ghost predicate Valid()
      reads this
    {
      forall m | m in nodes :: nodes[m].mac == m
    }

    constructor ()
      ensures Valid() && nodes == map[]
    {
      nodes := map[];
    }

    /** Returns true for the already-approved-with-this-key error. */
    method AddPendingNode(mac: Mac, key: Key, now: int) returns (repeated: bool)
      requires Valid()
      modifies this
      ensures Valid() && nodes == AddPending(old(nodes), mac, key, now) && repeated == IsRepeat(old(nodes), mac, key)
    {
      if mac in nodes && nodes[mac].status == Approved {
        if nodes[mac].publicKey == key {
          nodes := nodes[mac := nodes[mac].(receivedAt := At(now))];
          return true;
        }
        nodes := nodes[mac := nodes[mac].(publicKey := key, status := Pending, receivedAt := At(now), approvedAt := Never)];
        return false;
      }
      nodes := nodes[mac := NodeAuth(mac, key, Pending, At(now), Never)];
      return false;
    }

    method ApproveNode(mac: Mac, now: int) returns (r: Option<NodeAuth>)
      requires Valid()
      modifies this
      ensures Valid() && nodes == Approve(old(nodes), mac, now)
      ensures r == if mac in nodes then Some(nodes[mac]) else None
    {
      if mac !in nodes {
        return None;
      }
      nodes := nodes[mac := nodes[mac].(status := Approved, approvedAt := At(now))];
      return Some(nodes[mac]);
    }

    method RejectNode(mac: Mac) returns (ok: bool)
      requires Valid()
      modifies this
      ensures Valid() && nodes == Reject(old(nodes), mac) && ok == (mac in old(nodes))
    {
      ok := mac in nodes;
      if ok {
        nodes := nodes[mac := nodes[mac].(status := Rejected)];
      }
    }

    /** Approved means: a request with some key would be answered at once. */
    method IsApproved(mac: Mac) returns (r: bool)
      ensures r <==> exists key: Key :: IsRepeat(nodes, mac, key)
    {
      r := mac in nodes && nodes[mac].status == Approved;
      assert r ==> IsRepeat(nodes, mac, nodes[mac].publicKey);
    }

    method GetApprovedPublicKey(mac: Mac) returns (r: Option<Key>)
      ensures r.Some? <==> mac in nodes && nodes[mac].status == Approved
      ensures r.Some? ==> IsRepeat(nodes, mac, r.value)
    {
      if mac !in nodes || nodes[mac].status != Approved {
        return None;
      }
      return Some(nodes[mac].publicKey);
    }
  }
}
