/** What the hub's steps leave alone: every step but a trust decision keeps the trust state, the logical IDs
    and their uniqueness, and writes neither a JOIN_ACK nor an ID assignment. */
module HubEffects {
  import opened Bytes
  import opened MacText
  import opened Wire
  import Nodes
  import Hub
  import Protocol

  /** Entries are filed under their address, IDs are unique, and whoever has an ID has a six-byte address and a name. */
  ghost predicate GoodTable(t: Nodes.Table) {
    && Nodes.Keyed(t) && Nodes.UniqueIDs(t)
    && forall k :: k in t && t[k].nodeID > 0 ==> |k| == 6 && t[k].name != ""
  }

  /** Whoever has an ID afterwards had that ID before. */
  ghost predicate NoNewIDs(t: Nodes.Table, u: Nodes.Table) {
    forall k :: k in u && u[k].nodeID > 0 ==> k in t && t[k].nodeID == u[k].nodeID
  }

  /** A frame that sets some node's logical ID. */
  predicate SetsID(m: MeshMessage) {
    m.dataType == TYPE_SERIAL && m.data != [] && m.data[0] == OP_NODE_ID_SET
  }

  predicate IsPlainFrame(m: MeshMessage) {
    m.messageType != MSG_JOIN_ACK && m.messageType != MSG_ENROLLMENT && !SetsID(m)
  }

  ghost predicate AppendsPlain(q: seq<MeshMessage>, r: seq<MeshMessage>) {
    q <= r && forall i :: |q| <= i < |r| ==> IsPlainFrame(r[i])
  }

  ghost predicate Routine(h: Hub.State, r: Hub.State) {
    && r.cfg == h.cfg && r.auth == h.auth && r.trust == h.trust
    && AppendsPlain(h.tx, r.tx)
    && (GoodTable(h.nodes) ==> GoodTable(r.nodes) && NoNewIDs(h.nodes, r.nodes))
  }

  lemma RoutineTrans(h: Hub.State, r: Hub.State, q: Hub.State)
    requires Routine(h, r) && Routine(r, q)
    ensures Routine(h, q)
  {
    forall i | |h.tx| <= i < |q.tx| ensures IsPlainFrame(q.tx[i]) {
      if i < |r.tx| {
        assert q.tx[i] == r.tx[i];
      }
    }
  }

  lemma FewerHolders(t: Nodes.Table, u: Nodes.Table)
    requires Nodes.UniqueIDs(t)
    requires forall id: byte, j :: id > 0 && Nodes.Holds(u, j, id) ==> Nodes.Holds(t, j, id)
    ensures Nodes.UniqueIDs(u)
  {
  }

  /** Replacing one entry by one with the same ID, status and address keeps the table good. */
  lemma SameIDKeepsGood(t: Nodes.Table, k: Bytes, n: Nodes.NodeInfo)
    requires GoodTable(t) && n.mac == k
    requires n.nodeID == Nodes.Entry(t, k).nodeID && n.status == Nodes.Entry(t, k).status
    requires n.nodeID > 0 ==> n.name != ""
    ensures GoodTable(t[k := n]) && NoNewIDs(t, t[k := n])
  {
    FewerHolders(t, t[k := n]);
  }

  lemma ZoneSendsRoutine(h: Hub.State, order: seq<Bytes>, zone: string, payload: Bytes)
    requires forall k | k in order :: k in h.nodes
    ensures Routine(h, Hub.ZoneSends(h, order, zone, payload))
  {
    if order != [] {
      var init := order[..|order| - 1];
      assert forall k | k in init :: k in order;
      ZoneSendsRoutine(h, init, zone, payload);
    }
  }

  lemma AssignKeepsGood(t: Nodes.Table, k: Bytes, name: string, zone: string)
    requires GoodTable(t) && k in t && t[k].nodeID > 0
    ensures GoodTable(Nodes.Assign(t, k, t[k].nodeID, name, zone))
    ensures NoNewIDs(t, Nodes.Assign(t, k, t[k].nodeID, name, zone))
  {
    assert |MacToString(k)| > 0;
    SameIDKeepsGood(t, k, Nodes.Assign(t, k, t[k].nodeID, name, zone)[k]);
  }

  lemma ConfigureRoutine(h: Hub.State, target: Bytes, adapterType: int)
    ensures Routine(h, Hub.Configure(h, target, adapterType))
  {
    if |target| == MAC_LEN {
      assert ConfigSetMsg(h.cfg.me, target, adapterType).data[0] == OP_CONFIG_SET;
    }
  }

  lemma AssignRoutine(h: Hub.State, k: Bytes, name: string, zone: string)
    requires k in h.nodes && h.nodes[k].nodeID > 0
    ensures Routine(h, h.(nodes := Nodes.Assign(h.nodes, k, h.nodes[k].nodeID, name, zone)))
  {
    if GoodTable(h.nodes) {
      AssignKeepsGood(h.nodes, k, name, zone);
    }
  }

  lemma UpdateNodeRoutine(h: Hub.State, a: Protocol.Action)
    requires a.UpdateNode? && a.nodeID > 0 && Nodes.Keyed(h.nodes)
    ensures Routine(h, Hub.UpdateNode(h, a.nodeID, a.name, a.zone, a.typeName, a.hint))
  {
    var found := Nodes.GetNodeByID(h.nodes, a.nodeID, a.hint);
    if found.Some? && !(a.typeName.Some? && Hub.TypeFromName(a.typeName.value).None?) {
      var n := h.nodes[found.value];
      var name := if a.name.Some? then a.name.value else n.name;
      var zone := if a.zone.Some? then a.zone.value else n.zone;
      var h1 := h.(nodes := Nodes.Assign(h.nodes, n.mac, n.nodeID, name, zone));
      AssignRoutine(h, n.mac, name, zone);
      if a.typeName.Some? {
        var adapterType := Hub.TypeFromName(a.typeName.value).value;
        ConfigureRoutine(h1, n.mac, adapterType);
        RoutineTrans(h, h1, Hub.Configure(h1, n.mac, adapterType));
      }
    }
  }

  lemma DeleteNodeRoutine(h: Hub.State, nodeID: byte, hint: Bytes)
    ensures Routine(h, Hub.DeleteNode(h, nodeID, hint))
  {
    var found := Nodes.GetNodeByID(h.nodes, nodeID, hint);
    if found.Some? && GoodTable(h.nodes) {
      FewerHolders(h.nodes, h.nodes - {found.value});
    }
  }

  lemma NodeCommandRoutine(h: Hub.State, nodeID: byte, command: string, colour: Bytes, id: Uuid, hint: Bytes, now: int)
    ensures Routine(h, Hub.NodeCommand(h, nodeID, command, colour, id, hint, now))
  {
  }

  /** Every step of the hub's own, except the administrator's two decisions, is routine. */
  lemma RoutineStep(h: Hub.State, a: Protocol.Action, now: int)
    requires a.ZoneCommand? || a.CheckOffline? ==> Hub.IsOrder(a.entries, h.nodes.Keys)
    requires !a.AdminApprove? && !a.AdminReject?
    requires (a.UpdateNode? ==> a.nodeID > 0) && Nodes.Keyed(h.nodes)
    ensures Routine(h, Protocol.HubStep(h, a, now))
  {
    match a
    case UpdateNode(_, _, _, _, _) => UpdateNodeRoutine(h, a);
    case DeleteNode(id, hint) => DeleteNodeRoutine(h, id, hint);
    case NodeCommand(nodeID, command, colour, id, hint) => NodeCommandRoutine(h, nodeID, command, colour, id, hint, now);
    case ZoneCommand(zone, command, colour, entries) =>
      var p := Hub.CommandPayload(command, colour, (0, 0));
      if p.Some? {
        ZoneSendsRoutine(h, entries, zone, p.value);
      }
    case Configure(target, adapterType) => ConfigureRoutine(h, target, adapterType);
    case _ =>
  }

  lemma UpdateKeepsGood(t: Nodes.Table, r: HealthReport, now: int)
    requires GoodTable(t)
    ensures var u := Nodes.Update(t, r.mac, r.adapterType, r.uptime, r.hopCount, now); GoodTable(u) && NoNewIDs(t, u)
  {
    var u := Nodes.Update(t, r.mac, r.adapterType, r.uptime, r.hopCount, now);
    assert u == t[r.mac := u[r.mac]];
    SameIDKeepsGood(t, r.mac, u[r.mac]);
  }

  lemma PublishHealthRoutine(h: Hub.State, n: Nodes.NodeInfo, now: int)
    ensures Routine(h, Hub.PublishHealth(h, n, now))
  {
  }

  lemma HealthRoutine(h: Hub.State, m: MeshMessage, now: int)
    ensures Routine(h, Hub.HandleHealth(h, m, now))
  {
    var report := ParseHealthReport(m);
    if report.Some? {
      var r := report.value;
      var t := Nodes.Update(h.nodes, r.mac, r.adapterType, r.uptime, r.hopCount, now);
      var h1 := h.(nodes := t);
      if GoodTable(h.nodes) {
        UpdateKeepsGood(h.nodes, r, now);
      }
      PublishHealthRoutine(h1, t[r.mac], now);
      RoutineTrans(h, h1, Hub.PublishHealth(h1, t[r.mac], now));
    }
  }

  lemma RouteKeepsGood(t: Nodes.Table, origin: Bytes, relays: seq<Mac>)
    requires GoodTable(t)
    ensures GoodTable(Nodes.UpdateRoute(t, origin, relays)) && NoNewIDs(t, Nodes.UpdateRoute(t, origin, relays))
  {
    var t1 := t[origin := Nodes.Entry(t, origin)];
    var n := Nodes.UpdateRoute(t, origin, relays)[origin];
    assert Nodes.UpdateRoute(t, origin, relays) == t[origin := n];
    SameIDKeepsGood(t, origin, n);
  }

  lemma RouteRoutine(h: Hub.State, m: MeshMessage)
    ensures Routine(h, Hub.HandleRoute(h, m))
  {
    var relays := ParseRoute(m);
    if relays.Some? && GoodTable(h.nodes) {
      RouteKeepsGood(h.nodes, m.origin, relays.value);
    }
  }

  lemma AckRoutine(h: Hub.State, m: MeshMessage, hint: Uuid, now: int)
    ensures Routine(h, Hub.HandleAck(h, m, hint, now))
  {
  }

  lemma SerialRoutine(h: Hub.State, m: MeshMessage, hints: Hub.Hints, now: int)
    ensures Routine(h, Hub.HandleSerial(h, m, hints, now))
  {
    AckRoutine(h, m, hints.command, now);
    HealthRoutine(h, m, now);
  }

  lemma MotionRoutine(h: Hub.State, m: MeshMessage)
    ensures Routine(h, Hub.HandleMotion(h, m))
  {
  }

  /** Every frame that is not a request to join is routine, and makes the hub write nothing. */
  lemma RoutineMessage(h: Hub.State, m: MeshMessage, hints: Hub.Hints, now: int)
    requires m.messageType != MSG_ENROLLMENT
    ensures Routine(h, Hub.HandleMessage(h, m, hints, now))
  {
    if m.messageType == MSG_ROUTE_REPORT {
      RouteRoutine(h, m);
    } else if m.dataType == TYPE_SERIAL {
      SerialRoutine(h, m, hints, now);
    } else {
      MotionRoutine(h, m);
    }
  }

  lemma HealthSilent(h: Hub.State, m: MeshMessage, now: int)
    ensures Hub.HandleHealth(h, m, now).tx == h.tx
  {
  }

  lemma AckSilent(h: Hub.State, m: MeshMessage, hint: Uuid, now: int)
    ensures Hub.HandleAck(h, m, hint, now).tx == h.tx
  {
  }

  lemma RouteSilent(h: Hub.State, m: MeshMessage)
    ensures Hub.HandleRoute(h, m).tx == h.tx
  {
  }

  lemma SilentMessage(h: Hub.State, m: MeshMessage, hints: Hub.Hints, now: int)
    requires m.messageType != MSG_ENROLLMENT
    ensures Hub.HandleMessage(h, m, hints, now).tx == h.tx
  {
    HealthSilent(h, m, now);
    AckSilent(h, m, hints.command, now);
    RouteSilent(h, m);
  }

  // ----- Editing and deleting -----

  /** The adapter type a writable type name stands for. */
  function NamedType(name: string): int {
    if name == "pir" then TYPE_PIR else if name == "led" then TYPE_LED else TYPE_RELAY
  }

  lemma EditOne(h: Hub.State, holder: Bytes, name: Option<string>, zone: Option<string>, typeName: Option<string>,
                nodeID: byte, hint: Bytes)
    requires Nodes.Keyed(h.nodes) && Nodes.GetNodeByID(h.nodes, nodeID, hint) == Some(holder) && |holder| == 6
    requires typeName.Some? ==> Hub.TypeFromName(typeName.value).Some?
    ensures var r := Hub.UpdateNode(h, nodeID, name, zone, typeName, hint);
      var was := h.nodes[holder];
      && r.nodes == Nodes.Assign(h.nodes, holder, nodeID, if name.Some? then name.value else was.name,
                                 if zone.Some? then zone.value else was.zone)
      && r.tx == h.tx + (if typeName.None? then []
                         else [ConfigSetMsg(h.cfg.me, holder, Hub.TypeFromName(typeName.value).value)])
      && r == h.(nodes := r.nodes, tx := r.tx)
  {
  }

  /** Editing the node that holds an ID keeps its ID and every other field but name and zone, and touches no other entry;
      it sends a CONFIG_SET for that node exactly when a type was given. An unwritable type changes nothing at all. */
  lemma UpdateNodeEffect(h: Hub.State, nodeID: byte, name: Option<string>, zone: Option<string>, typeName: Option<string>,
                         holder: Bytes, hint: Bytes)
    requires GoodTable(h.nodes) && nodeID > 0 && Nodes.Holds(h.nodes, holder, nodeID)
    ensures var r := Hub.UpdateNode(h, nodeID, name, zone, typeName, hint);
      var was := h.nodes[holder];
      if typeName.Some? && typeName.value !in {"pir", "led", "relay"} then r == h
      else
        && r.nodes == h.nodes[holder := was.(name := if name.None? then was.name
                                                     else if name.value == "" then MacToString(holder) else name.value,
                                             zone := if zone.None? then was.zone else zone.value)]
        && r.tx == h.tx + (if typeName.None? then []
                           else [ConfigSetMsg(h.cfg.me, holder, NamedType(typeName.value))])
        && r == h.(nodes := r.nodes, tx := r.tx)
  {
    assert Nodes.GetNodeByID(h.nodes, nodeID, hint) == Some(holder);
    if !(typeName.Some? && typeName.value !in {"pir", "led", "relay"}) {
      EditOne(h, holder, name, zone, typeName, nodeID, hint);
    }
  }

  lemma HolderRemoved(t: Nodes.Table, nodeID: byte, holder: Bytes, hint: Bytes)
    requires GoodTable(t) && nodeID > 0 && Nodes.Holds(t, holder, nodeID)
    ensures Nodes.GetNodeByID(t - {holder}, nodeID, hint) == None
    ensures forall k :: Nodes.Holds(t, k, nodeID) <==> k == holder
  {
    assert forall k :: Nodes.Holds(t - {holder}, k, nodeID) ==> Nodes.Holds(t, k, nodeID);
  }

  /** Deleting by ID removes exactly the holder's entry, and then the ID leads nowhere. */
  lemma DeleteNodeEffect(h: Hub.State, nodeID: byte, hint: Bytes, h2: Bytes)
    requires GoodTable(h.nodes) && nodeID > 0
    ensures var r := Hub.DeleteNode(h, nodeID, hint);
      && Nodes.GetNodeByID(r.nodes, nodeID, h2) == None
      && (forall k :: k in r.nodes <==> k in h.nodes && !Nodes.Holds(h.nodes, k, nodeID))
      && (forall k :: k in r.nodes ==> r.nodes[k] == h.nodes[k])
      && r == h.(nodes := r.nodes)
  {
    match Nodes.GetNodeByID(h.nodes, nodeID, hint)
    case None =>
    case Some(holder) =>
      HolderRemoved(h.nodes, nodeID, holder, h2);
  }

  // ----- Approvals -----

  /** Giving one entry an ID that no other live entry holds. */
  lemma AssignFresh(t: Nodes.Table, mac: Mac, nodeID: byte, name: string, zone: string)
    requires GoodTable(t)
    requires nodeID > 0 ==> forall k :: Nodes.Holds(t, k, nodeID) ==> k == mac
    ensures GoodTable(Nodes.Assign(t, mac, nodeID, name, zone))
  {
    assert |MacToString(mac)| > 0;
    var u := Nodes.Assign(t, mac, nodeID, name, zone);
    forall id: byte, j, k | id > 0 && Nodes.Holds(u, j, id) && Nodes.Holds(u, k, id) ensures j == k {
      assert j != mac ==> Nodes.Holds(t, j, id);
      assert k != mac ==> Nodes.Holds(t, k, id);
    }
  }

  lemma MarkReplacedKeepsGood(t: Nodes.Table, k: Bytes, successor: string)
    requires GoodTable(t)
    ensures GoodTable(Nodes.MarkReplaced(t, k, successor))
  {
    FewerHolders(t, Nodes.MarkReplaced(t, k, successor));
  }

  /** Displacing first gives the same table as displacing last. */
  lemma DisplaceFirst(t: Nodes.Table, mac: Mac, a: Hub.Assignment)
    requires a.displaced.Some? && a.displaced.value != mac
    ensures Hub.Install(t, mac, a)
         == Nodes.Assign(Nodes.MarkReplaced(t, a.displaced.value, MacToString(mac)), mac, a.nodeID, a.name, a.zone)
  {
  }

  lemma DisplaceKeepsGood(t: Nodes.Table, mac: Mac, a: Hub.Assignment)
    requires GoodTable(t) && a.displaced.Some? && a.nodeID > 0
    requires a.displaced.value != mac && Nodes.Holds(t, a.displaced.value, a.nodeID)
    ensures GoodTable(Hub.Install(t, mac, a))
  {
    var k, text := a.displaced.value, MacToString(mac);
    DisplaceFirst(t, mac, a);
    MarkReplacedKeepsGood(t, k, text);
    FreedHolders(t, k, text, a.nodeID);
    AssignFresh(Nodes.MarkReplaced(t, k, text), mac, a.nodeID, a.name, a.zone);
  }

  /** Once the one holder of an ID is marked replaced, nobody holds that ID. */
  lemma FreedHolders(t: Nodes.Table, k: Bytes, successor: string, id: byte)
    requires Nodes.UniqueIDs(t) && id > 0 && Nodes.Holds(t, k, id)
    ensures forall j :: !Nodes.Holds(Nodes.MarkReplaced(t, k, successor), j, id)
  {
    forall j ensures !Nodes.Holds(Nodes.MarkReplaced(t, k, successor), j, id) {
      assert j != k ==> !Nodes.Holds(t, j, id);
    }
  }

  /** An approval leaves unique IDs, even when the new node takes over an ID that is in use. */
  lemma InstallKeepsGood(t: Nodes.Table, mac: Mac, p: Hub.ApprovalParams, hint: Bytes)
    requires GoodTable(t)
    ensures GoodTable(Hub.Install(t, mac, Hub.Decide(t, mac, p, hint)))
  {
    var a := Hub.Decide(t, mac, p, hint);
    if a.displaced.Some? {
      DisplaceKeepsGood(t, mac, a);
    } else {
      if p.nodeID == 0 && a.nodeID > 0 {
        assert !Nodes.InUse(t, a.nodeID);
      }
      AssignFresh(t, mac, a.nodeID, a.name, a.zone);
    }
  }

  /** Nobody but the approved node gains or changes an ID. */
  lemma InstallIDs(t: Nodes.Table, mac: Mac, p: Hub.ApprovalParams, hint: Bytes)
    ensures var a := Hub.Decide(t, mac, p, hint);
      var u := Hub.Install(t, mac, a);
      && mac in u && u[mac].nodeID == a.nodeID
      && forall k :: k in u && k != mac ==> k in t && (u[k].nodeID == t[k].nodeID || u[k].nodeID == 0)
  {
  }

  /** Between its two registry writes a hotswap breaks uniqueness, unless the new node's own entry is already
      marked replaced; the second write always restores it. */
  lemma HotswapWindow(t: Nodes.Table, mac: Mac, p: Hub.ApprovalParams, hint: Bytes)
    requires GoodTable(t)
    ensures var a := Hub.Decide(t, mac, p, hint);
      a.displaced.Some? ==>
        && (Nodes.UniqueIDs(Nodes.Assign(t, mac, a.nodeID, a.name, a.zone))
            <==> Nodes.Entry(t, mac).status == Nodes.REPLACED)
        && Nodes.UniqueIDs(Hub.Install(t, mac, a))
  {
    var a := Hub.Decide(t, mac, p, hint);
    InstallKeepsGood(t, mac, p, hint);
    if a.displaced.Some? {
      var u := Nodes.Assign(t, mac, a.nodeID, a.name, a.zone);
      var k := a.displaced.value;
      assert Nodes.Holds(t, k, a.nodeID) && k != mac && u[k] == t[k];
      assert Nodes.Holds(u, k, a.nodeID);
      if Nodes.Entry(t, mac).status != Nodes.REPLACED {
        assert Nodes.Holds(u, mac, a.nodeID);
      } else {
        FewerHolders(t, u);
      }
    }
  }
}
