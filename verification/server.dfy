/** The mesh server as the class it is: registries and fields updated in place, each handler proved
    to do to the abstract state exactly what its specification in Hub says. */
module Server {
  import opened Bytes
  import opened Clock
  import opened MacText
  import opened Wire
  import Nodes
  import Auth
  import Commands
  import Hub

  class MeshServer {
    const cfg: Hub.Config
    const nodeRegistry: Nodes.NodeRegistry
    const authRegistry: Auth.Registry
    const commandStore: Commands.CommandStore
    var nodeOnlineState: map<Bytes, bool>
    var tx: seq<MeshMessage>  // frames written to the link and not yet read from it
    ghost var trust: seq<Hub.TrustEvent>
    ghost var events: seq<Hub.Event>
    ghost var issued: map<Uuid, Hub.Issue>

    ghost predicate Valid()
      reads this, nodeRegistry, authRegistry
    {
      nodeRegistry.Valid() && authRegistry.Valid()
    }

    ghost function View(): Hub.State
      reads this, nodeRegistry, authRegistry, commandStore
    {
      Hub.State(cfg, authRegistry.nodes, nodeRegistry.nodes, commandStore.commands, nodeOnlineState, tx, trust, events, issued)
    }

    constructor (cfg: Hub.Config)
      ensures Valid() && View() == Hub.Init(cfg)
      ensures fresh(nodeRegistry) && fresh(authRegistry) && fresh(commandStore)
    {
      this.cfg := cfg;
      nodeRegistry := new Nodes.NodeRegistry();
      authRegistry := new Auth.Registry();
      commandStore := new Commands.CommandStore();
      nodeOnlineState, tx := map[], [];
      trust, events, issued := [], [], map[];
    }

    method WriteFrame(m: MeshMessage)
      modifies this`tx, this`trust
      ensures View() == Hub.Send(old(View()), m)
    {
      tx := tx + [m];
      if Hub.IsGrant(m) {
        trust := trust + [Hub.Granted(m)];
      }
    }

    ghost method PublishEvent(e: Hub.Event)
      modifies this`events
      ensures View() == Hub.Publish(old(View()), e)
    {
      events := events + [e];
    }

    // ----- Frames from the link -----

    method HandleMessage(m: MeshMessage, now: int) returns (ghost hints: Hub.Hints)
      requires Valid()
      modifies this, nodeRegistry, authRegistry, commandStore
      ensures Valid() && View() == Hub.HandleMessage(old(View()), m, hints, now)
    {
      hints := Hub.Hints([], seq(16, _ => 0));
      if m.protoVersion != 5 {
        return;
      }
      if m.messageType == MSG_ADAPTER_DATA {
        if m.dataType == TYPE_SERIAL {
          hints := HandleSerialData(m, now);
        } else if m.dataType == TYPE_PIR {
          HandlePIRData(m);
        }
      } else if m.messageType == MSG_ENROLLMENT {
        ghost var holder := HandleEnrollmentRequest(m, now);
        hints := hints.(holder := holder);
      } else if m.messageType == MSG_ROUTE_REPORT {
        HandleRouteReport(m);
      }
    }

    method HandleSerialData(m: MeshMessage, now: int) returns (ghost hints: Hub.Hints)
      requires Valid()
      modifies this, nodeRegistry, commandStore
      ensures Valid() && View() == Hub.HandleSerial(old(View()), m, hints, now)
    {
      hints := Hub.Hints([], seq(16, _ => 0));
      if m.data == [] {
        return;
      }
      if m.data[0] == OP_HEALTH_REPORT || m.data[0] == OP_NODE_HEALTH {
        HandleHealthReport(m, now);
      } else if m.data[0] == OP_COMMAND_ACK {
        ghost var command := HandleCommandAck(m, now);
        hints := hints.(command := command);
      }
    }

    method HandleHealthReport(m: MeshMessage, now: int)
      requires Valid()
      modifies this, nodeRegistry
      ensures Valid() && View() == Hub.HandleHealth(old(View()), m, now)
    {
      var report := ParseHealthReport(m);
      if report.None? {
        return;
      }
      nodeRegistry.UpdateNode(report.value.mac, report.value.adapterType, report.value.uptime, report.value.hopCount, now);
      var node := nodeRegistry.GetNode(report.value.mac);
      if node.Some? {
        PublishHealthEvent(node.value, now);
      }
    }

    method PublishHealthEvent(n: Nodes.NodeInfo, now: int)
      modifies this`events, this`nodeOnlineState
      ensures View() == Hub.PublishHealth(old(View()), n, now)
    {
      var online := !Overdue(now, n.lastSeen, cfg.healthTimeout);
      PublishEvent(Hub.Health(n.mac, n.nodeID, n.name, online, n.uptime, n.hopCount));
      if n.mac !in nodeOnlineState || !nodeOnlineState[n.mac] {
        nodeOnlineState := nodeOnlineState[n.mac := true];
        PublishEvent(Hub.NodeOnline(n.mac, n.nodeID, n.name));
      }
    }

    method HandleCommandAck(m: MeshMessage, now: int) returns (ghost hint: Uuid)
      modifies this`events, commandStore
      ensures View() == Hub.HandleAck(old(View()), m, hint, now)
    {
      hint := seq(16, _ => 0);
      if |m.data| < 3 {
        return;
      }
      var found := commandStore.AckByToken((m.data[1], m.data[2]), now);
      if found.Some? {
        hint := found.value;
        var cmd := commandStore.Get(found.value);
        var nodeID: byte := 0;
        if cmd.Some? {
          nodeID := cmd.value.nodeID;
        }
        PublishEvent(Hub.CommandAcked(found.value, nodeID));
      }
    }

    method HandlePIRData(m: MeshMessage)
      modifies this`events
      ensures View() == Hub.HandleMotion(old(View()), m)
    {
      if !cfg.hasEventStore {
        return;
      }
      var node := nodeRegistry.GetNode(m.origin);
      if node.Some? {
        var n := node.value;
        PublishEvent(Hub.Motion(m.origin, n.nodeID, n.name, n.zone, n.hopCount));
      }
    }

    method HandleRouteReport(m: MeshMessage)
      requires Valid()
      modifies this`events, nodeRegistry
      ensures Valid() && View() == Hub.HandleRoute(old(View()), m)
    {
      if RouteLen(m) > 10 || |m.routePath| < RouteLen(m) * MAC_LEN {
        return;
      }
      var relays := CutRoute(m);
      nodeRegistry.UpdateNodeRoute(m.origin, relays);
      var node := nodeRegistry.GetNode(m.origin);
      if node.Some? && node.value.nodeID > 0 {
        PublishEvent(Hub.RouteUpdate(m.origin, node.value.nodeID, node.value.parentID));
      }
    }

    // ----- Enrollment -----

    method HandleEnrollmentRequest(m: MeshMessage, now: int) returns (ghost hint: Bytes)
      requires Valid()
      modifies this, nodeRegistry, authRegistry
      ensures Valid() && View() == Hub.HandleEnrollment(old(View()), m, hint, now)
    {
      hint := [];
      if |m.origin| < 6 || |m.publicKey| != 32 {
        return;
      }
      var mac: Mac, key: Key := m.origin[..6], m.publicKey;
      var repeated := authRegistry.AddPendingNode(mac, key, now);
      if repeated {
        hint := ResendJoinAck(mac, now);
      } else {
        trust := trust + [Hub.Requested(mac, key)];
      }
    }

    /** Approves again with the identity the registry already holds, so that a repeat does not lose it. */
    method ResendJoinAck(mac: Mac, now: int) returns (ghost hint: Bytes)
      requires Valid()
      modifies this, nodeRegistry, authRegistry
      ensures Valid() && View() == Hub.Resend(old(View()), mac, hint, now)
    {
      var params := Hub.ApprovalParams(0, "", "", "");
      var node := nodeRegistry.GetNode(mac);
      if node.Some? {
        var n := node.value;
        params := Hub.ApprovalParams(n.nodeID, n.name, n.zone, Hub.TypeName(n.adapterType));
      }
      var ok;
      ok, hint := ApproveEnrollment(mac, params, now);
    }

    /** The ID to give, and the hotswap: an explicit ID that another node already owns hands over its fields. */
    method ResolveAssignment(mac: Mac, params: Hub.ApprovalParams) returns (a: Hub.Assignment, ghost hint: Bytes)
      requires Valid()
      ensures a == Hub.Decide(nodeRegistry.nodes, mac, params, hint)
    {
      hint := [];
      a := Hub.Assignment(params.nodeID, None, params.name, params.zone, TYPE_UNKNOWN);
      if params.nodeID == 0 {
        var free := nodeRegistry.NextFreeNodeID();
        a := a.(nodeID := free);
        return;
      }
      var holder := nodeRegistry.GetNodeByID(params.nodeID);
      hint := if holder.Some? then holder.value.mac else [];
      if holder.Some? && holder.value.mac != mac {
        a := a.(displaced := Some(holder.value.mac));
        if params.name == "" {
          a := a.(name := holder.value.name);
        }
        if params.zone == "" {
          a := a.(zone := holder.value.zone);
        }
        if params.typeName == "" && holder.value.adapterType != TYPE_UNKNOWN {
          a := a.(inherited := holder.value.adapterType);
        }
      }
    }

    method InstallAssignment(mac: Mac, a: Hub.Assignment)
      requires Valid()
      modifies nodeRegistry
      ensures Valid() && nodeRegistry.nodes == Hub.Install(old(nodeRegistry.nodes), mac, a)
    {
      nodeRegistry.AssignNode(mac, a.nodeID, a.name, a.zone);
      if a.displaced.Some? {
        nodeRegistry.MarkNodeReplaced(a.displaced.value, MacToString(mac));
      }
    }

    /** The body shared by the administrator and the self-heal path; false when the address is unknown. */
    method ApproveEnrollment(mac: Mac, params: Hub.ApprovalParams, now: int) returns (ok: bool, ghost hint: Bytes)
      requires Valid()
      modifies this, nodeRegistry, authRegistry
      ensures Valid() && ok == (mac in old(authRegistry.nodes))
      ensures View() == if ok then Hub.Enroll(old(View()), mac, params, hint, now) else old(View())
    {
      hint := [];
      var node := authRegistry.ApproveNode(mac, now);
      if node.None? {
        return false, hint;
      }
      ok := true;
      var a;
      a, hint := ResolveAssignment(mac, params);
      InstallAssignment(mac, a);
      var entry := nodeRegistry.GetNode(mac);
      if entry.Some? {
        PublishEvent(Hub.Enrolled(mac, entry.value.nodeID, entry.value.name,
                                  if params.typeName == "" then "unknown" else params.typeName));
      }
      SendEnrollment(mac, node.value.publicKey, a);
    }

    method SendEnrollment(mac: Mac, key: Key, a: Hub.Assignment)
      modifies this`tx, this`trust
      ensures View() == Hub.SendEnrollment(old(View()), mac, key, a)
    {
      var ack := BuildJoinAck(cfg.me, mac, key);
      WriteFrame(ack);
      if a.nodeID > 0 {
        var idSet := BuildNodeIdSet(cfg.me, mac, a.nodeID);
        WriteFrame(idSet);
      }
      if a.inherited != TYPE_UNKNOWN {
        var config := BuildConfigSet(mac, a.inherited);
        WriteFrame(config.value.(origin := cfg.me.mac));
      }
    }

    /** POST .../approve: the administrator's decision is recorded, then the enrollment runs. */
    method AdminApprove(mac: Mac, params: Hub.ApprovalParams, now: int) returns (ok: bool, ghost hint: Bytes)
      requires Valid()
      modifies this, nodeRegistry, authRegistry
      ensures Valid() && ok == (mac in old(authRegistry.nodes))
      ensures View() == Hub.ApproveByAdmin(old(View()), mac, params, hint, now)
    {
      if mac in authRegistry.nodes {
        trust := trust + [Hub.AdminApproved(mac, authRegistry.nodes[mac].publicKey)];
      }
      ok, hint := ApproveEnrollment(mac, params, now);
    }

    method RejectEnrollment(mac: Mac) returns (ok: bool)
      requires Valid()
      modifies this, authRegistry
      ensures Valid() && ok == (mac in old(authRegistry.nodes))
      ensures View() == Hub.RejectByAdmin(old(View()), mac)
    {
      ok := authRegistry.RejectNode(mac);
      if ok {
        trust := trust + [Hub.AdminRejected(mac)];
        WriteFrame(RejectMsg(cfg.me, mac));
      }
    }

    // ----- The offline detector -----

    method CheckOfflineNodes(now: int) returns (ghost order: seq<Bytes>)
      modifies this`events, this`nodeOnlineState
      ensures Hub.IsOrder(order, nodeRegistry.nodes.Keys)
      ensures View() == Hub.CheckOffline(old(View()), order, now)
    {
      order := [];
      var todo := nodeRegistry.nodes.Keys;
      while todo != {}
        invariant todo <= nodeRegistry.nodes.Keys
        invariant Hub.IsOrder(order, nodeRegistry.nodes.Keys - todo)
        invariant View() == Hub.CheckOffline(old(View()), order, now)
        decreases todo
      {
        var k :| k in todo;
        var n := nodeRegistry.nodes[k];
        if Overdue(now, n.lastSeen, cfg.healthTimeout) {
          if k in nodeOnlineState && nodeOnlineState[k] {
            nodeOnlineState := nodeOnlineState[k := false];
            PublishEvent(Hub.NodeOffline(k, n.nodeID, n.name, n.lastSeen, now));
          }
        }
        assert (order + [k])[..|order|] == order;
        order := order + [k];
        todo := todo - {k};
      }
    }

    // ----- The HTTP API, with parsed arguments -----

    method NodeCommand(nodeID: byte, action: string, colour: Bytes, id: Uuid, now: int) returns (ok: bool, ghost hint: Bytes)
      requires Valid()
      modifies this, commandStore
      ensures Valid() && View() == Hub.NodeCommand(old(View()), nodeID, action, colour, id, hint, now)
      ensures ok <==> |tx| == |old(tx)| + 1
    {
      var node := nodeRegistry.GetNodeByID(nodeID);
      hint := if node.Some? then node.value.mac else [];
      if node.None? || !IsOutput(node.value.adapterType) {
        return false, hint;
      }
      var payload := Hub.CommandPayload(action, colour, (0, 0));
      if payload.None? {
        return false, hint;
      }
      var buf := new byte[MAX_DATA](i requires 0 <= i < MAX_DATA => payload.value[i]);
      buf[MAX_DATA - 2] := id[14];
      buf[MAX_DATA - 1] := id[15];
      assert Hub.CommandPayload(action, colour, Commands.TokenOf(id)) == Some(buf[..]) by {
        Hub.TokenPatch(action, colour, Commands.TokenOf(id), buf[..]);
      }
      commandStore.Add(id, Commands.PendingCommand(nodeID, action, At(now), Commands.Pending, Never));
      issued := issued[id := Hub.Issue(node.value.adapterType, buf[..])];
      SendNodeData(node.value.adapterType, buf[..]);
      return true, hint;
    }

    method SendNodeData(dataType: int, data: Bytes)
      modifies this`tx, this`trust
      ensures View() == Hub.Send(old(View()), NodeDataMsg(dataType, data))
    {
      var buf := new byte[MAX_DATA](_ => 0);
      CopyInto(buf, 0, if |data| > MAX_DATA then data[..MAX_DATA] else data);
      assert buf[..] == Padded(data);
      WriteFrame(BLANK.(messageType := MSG_SERIAL_CMD_BROADCAST, dataType := dataType, data := buf[..]));
    }

    method ZoneCommand(zone: string, action: string, colour: Bytes) returns (ghost order: seq<Bytes>)
      modifies this`tx, this`trust
      ensures Hub.IsOrder(order, nodeRegistry.nodes.Keys)
      ensures View() == Hub.ZoneCommand(old(View()), zone, action, colour, order)
    {
      order := [];
      var payload := Hub.CommandPayload(action, colour, (0, 0));
      var todo := nodeRegistry.nodes.Keys;
      while todo != {}
        invariant todo <= nodeRegistry.nodes.Keys
        invariant Hub.IsOrder(order, nodeRegistry.nodes.Keys - todo)
        invariant View() == Hub.ZoneCommand(old(View()), zone, action, colour, order)
        decreases todo
      {
        var k :| k in todo;
        var n := nodeRegistry.nodes[k];
        if payload.Some? && n.zone == zone && n.status != Nodes.REPLACED && IsOutput(n.adapterType) {
          SendNodeData(n.adapterType, payload.value);
        }
        assert (order + [k])[..|order|] == order;
        order := order + [k];
        todo := todo - {k};
      }
    }

    method ConfigureNode(target: Bytes, adapterType: int) returns (ok: bool)
      modifies this`tx, this`trust
      ensures ok <==> |target| == MAC_LEN
      ensures View() == Hub.Configure(old(View()), target, adapterType)
    {
      var m := BuildConfigSet(target, adapterType);
      ok := m.Some?;
      if ok {
        WriteFrame(m.value.(origin := cfg.me.mac));
      }
    }

    method RequestHealthReports()
      modifies this`tx, this`trust
      ensures View() == Hub.RequestHealth(old(View()))
    {
      WriteFrame(HealthRequestMsg());
    }

    method UpdateNode(nodeID: byte, name: Option<string>, zone: Option<string>, typeName: Option<string>)
      returns (ok: bool, ghost hint: Bytes)
      requires Valid()
      modifies this, nodeRegistry
      ensures Valid() && View() == Hub.UpdateNode(old(View()), nodeID, name, zone, typeName, hint)
      ensures var found := Nodes.GetNodeByID(old(nodeRegistry.nodes), nodeID, hint);
        ok <==> found.Some? && (typeName.Some? ==> Hub.TypeFromName(typeName.value).Some? && |found.value| == MAC_LEN)
    {
      var node := nodeRegistry.GetNodeByID(nodeID);
      hint := if node.Some? then node.value.mac else [];
      if node.None? {
        return false, hint;
      }
      var adapterType: Option<int> := None;
      if typeName.Some? {
        adapterType := Hub.TypeFromName(typeName.value);
        if adapterType.None? {
          return false, hint;
        }
      }
      var newName := if name.Some? then name.value else node.value.name;
      var newZone := if zone.Some? then zone.value else node.value.zone;
      nodeRegistry.AssignNode(node.value.mac, node.value.nodeID, newName, newZone);
      ok := true;
      if adapterType.Some? {
        ok := ConfigureNode(node.value.mac, adapterType.value);
      }
    }

    method DeleteNode(nodeID: byte) returns (ok: bool, ghost hint: Bytes)
      requires Valid()
      modifies nodeRegistry
      ensures Valid() && View() == Hub.DeleteNode(old(View()), nodeID, hint)
      ensures ok <==> exists k :: Nodes.Holds(old(nodeRegistry.nodes), k, nodeID)
    {
      var node := nodeRegistry.GetNodeByID(nodeID);
      hint := if node.Some? then node.value.mac else [];
      ok := node.Some?;
      if ok {
        var existed := nodeRegistry.RemoveNode(node.value.mac);
      }
    }
  }
}
