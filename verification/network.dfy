/** The two classes joined by their links. Whatever is called, in whatever order, the network takes only steps of the step
    system, so everything proved of its runs holds of the classes. */
module Network {
  import opened Bytes
  import opened Wire
  import opened Protocol
  import Hub
  import Sim
  import Server
  import Simulators
  import IdentityProofs
  import TrustProofs
  import CorrelationProofs
  import PresenceProofs

  class Network {
    const server: Server.MeshServer
    const simulator: Simulators.Simulator
    var now: int
    var lastCheck: int
    ghost var states: seq<System>
    ghost var actions: seq<Action>

    ghost function View(): System
      reads this, server, server.nodeRegistry, server.authRegistry, server.commandStore, simulator
    {
      System(server.View(), simulator.View(), now, lastCheck)
    }

    /** The recorded history is a run of the step system, and it ends in the present. */
    ghost predicate Valid()
      reads this, server, server.nodeRegistry, server.authRegistry, server.commandStore, simulator
    {
      && server.Valid() && simulator.Valid()
      && IsHistory(states, actions) && states[|states| - 1] == View()
    }

    constructor (cfg: Hub.Config, seeds: Sim.Table, routeInterval: int, now: int)
      requires forall k | k in seeds :: seeds[k].mac == k
      ensures Valid() && actions == []
    {
      var s := new Server.MeshServer(cfg);
      var t := new Simulators.Simulator(seeds, now, routeInterval);
      server, simulator := s, t;
      this.now, lastCheck := now, now;
      states, actions := [System(s.View(), t.View(), now, now)], [];
    }

    ghost method Took(a: Action)
      requires IsHistory(states, actions)
      requires Enabled(states[|states| - 1], a) && View() == Apply(states[|states| - 1], a)
      requires server.Valid() && simulator.Valid()
      modifies this`states, this`actions
      ensures Valid() && actions == old(actions) + [a]
    {
      ExtendRun(states, actions, a);
      states := states + [View()];
      actions := actions + [a];
    }

    method AdminApprove(mac: Mac, params: Hub.ApprovalParams) returns (ghost hint: Bytes)
      requires Valid()
      modifies this, server, server.nodeRegistry, server.authRegistry
      ensures Valid() && actions == old(actions) + [Action.AdminApprove(mac, params, hint)]
    {
      var ok;
      ok, hint := server.AdminApprove(mac, params, now);
      Took(Action.AdminApprove(mac, params, hint));
    }

    method AdminReject(mac: Mac)
      requires Valid()
      modifies this, server, server.authRegistry
      ensures Valid() && actions == old(actions) + [Action.AdminReject(mac)]
    {
      var ok := server.RejectEnrollment(mac);
      Took(Action.AdminReject(mac));
    }

    method UpdateNode(nodeID: byte, name: Option<string>, zone: Option<string>, typeName: Option<string>)
      returns (ghost hint: Bytes)
      requires Valid() && nodeID > 0
      modifies this, server, server.nodeRegistry
      ensures Valid() && actions == old(actions) + [Action.UpdateNode(nodeID, name, zone, typeName, hint)]
    {
      var ok;
      ok, hint := server.UpdateNode(nodeID, name, zone, typeName);
      Took(Action.UpdateNode(nodeID, name, zone, typeName, hint));
    }

    method DeleteNode(nodeID: byte) returns (ghost hint: Bytes)
      requires Valid() && nodeID > 0
      modifies this, server.nodeRegistry
      ensures Valid() && actions == old(actions) + [Action.DeleteNode(nodeID, hint)]
    {
      var ok;
      ok, hint := server.DeleteNode(nodeID);
      Took(Action.DeleteNode(nodeID, hint));
    }

    /** `id` stands for the UUID drawn, which is taken to be new. */
    method NodeCommand(nodeID: byte, command: string, colour: Bytes, id: Uuid) returns (ghost hint: Bytes)
      requires Valid() && nodeID > 0 && id !in server.commandStore.commands
      modifies this, server, server.commandStore
      ensures Valid() && actions == old(actions) + [Action.NodeCommand(nodeID, command, colour, id, hint)]
    {
      var ok;
      ok, hint := server.NodeCommand(nodeID, command, colour, id, now);
      Took(Action.NodeCommand(nodeID, command, colour, id, hint));
    }

    method ZoneCommand(zone: string, command: string, colour: Bytes) returns (ghost order: seq<Bytes>)
      requires Valid()
      modifies this, server
      ensures Valid() && actions == old(actions) + [Action.ZoneCommand(zone, command, colour, order)]
    {
      order := server.ZoneCommand(zone, command, colour);
      Took(Action.ZoneCommand(zone, command, colour, order));
    }

    method Configure(target: Bytes, adapterType: int)
      requires Valid()
      modifies this, server
      ensures Valid() && actions == old(actions) + [Action.Configure(target, adapterType)]
    {
      var ok := server.ConfigureNode(target, adapterType);
      Took(Action.Configure(target, adapterType));
    }

    method RequestHealth()
      requires Valid()
      modifies this, server
      ensures Valid() && actions == old(actions) + [Action.RequestHealth]
    {
      server.RequestHealthReports();
      Took(Action.RequestHealth);
    }

    method CheckOffline() returns (ghost order: seq<Bytes>)
      requires Valid()
      modifies this, server
      ensures Valid() && actions == old(actions) + [Action.CheckOffline(order)]
    {
      order := server.CheckOfflineNodes(now);
      lastCheck := now;
      Took(Action.CheckOffline(order));
    }

    method DeliverUp() returns (ghost hints: Hub.Hints)
      requires Valid() && simulator.tx != []
      modifies this, server, server.nodeRegistry, server.authRegistry, server.commandStore, simulator
      ensures Valid() && actions == old(actions) + [Action.DeliverUp(hints)]
    {
      var m := simulator.tx[0];
      simulator.tx := simulator.tx[1..];
      hints := server.HandleMessage(m, now);
      Took(Action.DeliverUp(hints));
    }

    method DeliverDown() returns (ghost order: seq<Mac>)
      requires Valid() && server.tx != []
      modifies this, server, simulator
      ensures Valid() && actions == old(actions) + [Action.DeliverDown(order)]
    {
      var m := server.tx[0];
      server.tx := server.tx[1..];
      order := simulator.HandleFrame(m);
      Took(Action.DeliverDown(order));
    }

    method Tick() returns (ghost first: seq<Mac>, ghost second: seq<Mac>)
      requires Valid()
      modifies this, simulator
      ensures Valid() && actions == old(actions) + [Action.Tick(first, second)]
    {
      first, second := simulator.Tick(now);
      Took(Action.Tick(first, second));
    }

    method Spawn(mac: Mac, adapterType: int, key: Key)
      requires Valid()
      modifies this, simulator
      ensures Valid() && actions == old(actions) + [Action.Spawn(mac, adapterType, key)]
    {
      var ok := simulator.SpawnNode(mac, adapterType, key);
      Took(Action.Spawn(mac, adapterType, key));
    }

    method FireMotion(mac: Mac)
      requires Valid()
      modifies this, simulator
      ensures Valid() && actions == old(actions) + [Action.FireMotion(mac)]
    {
      var ok := simulator.FireMotion(mac);
      Took(Action.FireMotion(mac));
    }

    method SetOffline(mac: Mac, offline: bool)
      requires Valid()
      modifies this, simulator
      ensures Valid() && actions == old(actions) + [Action.SetOffline(mac, offline)]
    {
      var ok := simulator.SetOffline(mac, offline);
      Took(Action.SetOffline(mac, offline));
    }

    method Wait(d: nat)
      requires Valid()
      modifies this
      ensures Valid() && actions == old(actions) + [Action.Wait(d)]
    {
      now := now + d;
      Took(Action.Wait(d));
    }

    /** The invariants of every run, of the objects themselves. */
    lemma IsSafe()
      requires Valid()
      ensures IdentityProofs.IdentityInv(View())
      ensures TrustProofs.TrustInv(View(), TrustProofs.Seeds(states[0]))
      ensures CorrelationProofs.CommandInv(View())
      ensures PresenceProofs.Alternates(server.events)
    {
      var last := |states| - 1;
      IdentityProofs.IdentityHolds(states, actions, last);
      TrustProofs.TrustHolds(states, actions, last);
      CorrelationProofs.CommandsHold(states, actions, last);
      PresenceProofs.PresenceAlternatesInHistory(states, actions, last);
    }
  }
}
