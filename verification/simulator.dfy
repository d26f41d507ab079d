/** The simulator as the class it is, each method proved against Sim. */
module Simulators {
  import opened Bytes
  import opened Clock
  import opened Wire
  import opened Hub
  import Sim

  class Simulator {
    var nodes: Sim.Table
    var tx: seq<MeshMessage>
    const startedAt: int
    const routeInterval: int
    ghost var log: seq<Sim.Arrival>

    ghost function View(): Sim.State
      reads this
    {
      Sim.State(nodes, tx, log, startedAt, routeInterval)
    }

    ghost predicate Valid()
      reads this
    {
      forall k | k in nodes :: nodes[k].mac == k
    }

    constructor (seeds: Sim.Table, startedAt: int, routeInterval: int)
      requires forall k | k in seeds :: seeds[k].mac == k
      ensures Valid() && View() == Sim.State(seeds, [], [], startedAt, routeInterval)
    {
      nodes, tx, log := seeds, [], [];
      this.startedAt, this.routeInterval := startedAt, routeInterval;
    }

    method Write(m: MeshMessage)
      modifies this`tx
      ensures View() == Sim.Emit(old(View()), m)
    {
      tx := tx + [m];
    }

    /** Returns the order in which command acknowledgements were written, when there were any. */
    method HandleFrame(m: MeshMessage) returns (ghost order: seq<Mac>)
      requires Valid()
      modifies this
      ensures Valid() && IsOrder(order, old(nodes.Keys)) && View() == Sim.HandleFrame(old(View()), m, order)
    {
      log := log + [Sim.Arrival(m, nodes)];
      order := SomeOrder(nodes.Keys);
      if m.messageType == MSG_JOIN_ACK {
        var k := Sim.NodeAt(nodes, m.target);
        if k.Some? {
          if |m.publicKey| == 32 {
            nodes := nodes[k.value := nodes[k.value].(enrolled := true, rejected := false)];
            nodes := nodes[k.value := nodes[k.value].(lastHeartbeat := Never, lastRoute := Never)];
          } else {
            nodes := nodes[k.value := nodes[k.value].(rejected := true)];
          }
        }
      } else if m.messageType == MSG_ADAPTER_DATA || m.messageType == MSG_SERIAL_CMD_BROADCAST {
        if m.data == [] {
          return;
        }
        if m.dataType == TYPE_SERIAL {
          HandleSerialOp(m);
        } else if IsOutput(m.dataType) && |m.data| >= MAX_DATA {
          order := AckCommand(m);
        }
      }
    }

    method HandleSerialOp(m: MeshMessage)
      requires Valid() && m.data != []
      modifies this`nodes
      ensures Valid() && View() == Sim.HandleSerialOp(old(View()), m)
    {
      if m.data[0] == OP_HEALTH_REQ {
        ghost var was := nodes;
        var todo := nodes.Keys;
        while todo != {}
          invariant todo <= nodes.Keys && nodes.Keys == was.Keys
          invariant forall k | k in nodes :: nodes[k] == if k in todo then was[k] else was[k].(lastHeartbeat := Never)
          decreases todo
        {
          var k :| k in todo;
          nodes := nodes[k := nodes[k].(lastHeartbeat := Never)];
          todo := todo - {k};
        }
      } else if |m.data| >= 8 {
        var k := Sim.NodeAt(nodes, m.data[1..7]);
        if k.Some? {
          if m.data[0] == OP_NODE_ID_SET {
            nodes := nodes[k.value := nodes[k.value].(nodeID := m.data[7])];
          } else if m.data[0] == OP_CONFIG_SET {
            nodes := nodes[k.value := nodes[k.value].(adapterType := m.data[7])];
          }
        }
      }
    }

    method AckCommand(m: MeshMessage) returns (ghost order: seq<Mac>)
      requires Valid() && |m.data| >= MAX_DATA
      modifies this`nodes, this`tx
      ensures Valid() && IsOrder(order, old(nodes.Keys)) && View() == Sim.Acks(old(View()), order, m)
    {
      order := [];
      var todo := nodes.Keys;
      while todo != {}
        invariant todo <= nodes.Keys == old(nodes.Keys) && Valid()
        invariant IsOrder(order, nodes.Keys - todo)
        invariant View() == Sim.Acks(old(View()), order, m)
        decreases todo
      {
        var k :| k in todo;
        AckOne(k, m);
        assert (order + [k])[..|order|] == order;
        order := order + [k];
        todo := todo - {k};
      }
    }

    method AckOne(k: Mac, m: MeshMessage)
      requires Valid() && k in nodes && |m.data| >= MAX_DATA
      modifies this`nodes, this`tx
      ensures Valid() && nodes.Keys == old(nodes.Keys) && View() == Sim.AckOne(old(View()), k, m)
    {
      var n := nodes[k];
      if n.enrolled && !n.offline && n.adapterType == m.dataType {
        nodes := nodes[k := n.(ackCount := n.ackCount + 1)];
        Write(AckMsg(n.mac, n.relays, (m.data[MAX_DATA - 2], m.data[MAX_DATA - 1])));
      }
    }

    /** Health or join frames for every node, then routes for every node. */
    method Tick(now: int) returns (ghost first: seq<Mac>, ghost second: seq<Mac>)
      requires Valid()
      modifies this`nodes, this`tx
      ensures Valid() && IsOrder(first, old(nodes.Keys)) && IsOrder(second, old(nodes.Keys))
      ensures View() == Sim.Tick(old(View()), first, second, now)
    {
      first := TickHealths(now);
      second := TickRoutes(now);
    }

    method TickHealths(now: int) returns (ghost order: seq<Mac>)
      requires Valid()
      modifies this`nodes, this`tx
      ensures Valid() && nodes.Keys == old(nodes.Keys) && IsOrder(order, nodes.Keys)
      ensures View() == Sim.TickHealths(old(View()), order, now)
    {
      order := [];
      var todo := nodes.Keys;
      while todo != {}
        invariant todo <= nodes.Keys == old(nodes.Keys) && Valid()
        invariant IsOrder(order, nodes.Keys - todo)
        invariant View() == Sim.TickHealths(old(View()), order, now)
        decreases todo
      {
        var k :| k in todo;
        TickHealth(k, now);
        assert (order + [k])[..|order|] == order;
        order := order + [k];
        todo := todo - {k};
      }
    }

    method TickHealth(k: Mac, now: int)
      requires Valid() && k in nodes
      modifies this`nodes, this`tx
      ensures Valid() && nodes.Keys == old(nodes.Keys) && View() == Sim.TickHealth(old(View()), k, now)
    {
      var n := nodes[k];
      if n.offline {
        return;
      }
      if !n.enrolled {
        if !n.rejected && Due(now, n.lastEnroll, Sim.ENROLL_INTERVAL) {
          nodes := nodes[k := n.(lastEnroll := At(now))];
          Write(EnrollmentMsg(n.mac, n.relays, n.publicKey));
        }
        return;
      }
      if n.silent {
        return;
      }
      if Due(now, n.lastHeartbeat, n.heartbeat) {
        var up := ((now - startedAt) / Sim.SECOND) % 0x1_0000_0000;
        nodes := nodes[k := n.(lastHeartbeat := At(now), uptime := up)];
        var m := BuildHealth(n.mac, n.relays, n.adapterType, up);
        Write(m);
      }
    }

    method TickRoutes(now: int) returns (ghost order: seq<Mac>)
      requires Valid()
      modifies this`nodes, this`tx
      ensures Valid() && IsOrder(order, old(nodes.Keys)) && View() == Sim.TickRoutes(old(View()), order, now)
    {
      order := [];
      var todo := nodes.Keys;
      while todo != {}
        invariant todo <= nodes.Keys == old(nodes.Keys) && Valid()
        invariant IsOrder(order, nodes.Keys - todo)
        invariant View() == Sim.TickRoutes(old(View()), order, now)
        decreases todo
      {
        var k :| k in todo;
        var n := nodes[k];
        if !n.offline && n.enrolled && !n.silent && Due(now, n.lastRoute, routeInterval) {
          nodes := nodes[k := n.(lastRoute := At(now))];
          var m := BuildRouteReport(n.mac, n.relays);
          Write(m);
        }
        assert (order + [k])[..|order|] == order;
        order := order + [k];
        todo := todo - {k};
      }
    }

    method SpawnNode(mac: Mac, adapterType: int, key: Key) returns (ok: bool)
      requires Valid()
      modifies this`nodes
      ensures Valid() && ok == Sim.Spawnable(old(View()), mac, adapterType)
      ensures View() == Sim.Spawn(old(View()), mac, adapterType, key)
    {
      ok := mac !in nodes && (adapterType == TYPE_PIR || IsOutput(adapterType));
      if ok {
        nodes := nodes[mac := Sim.NewNode(mac, adapterType, key)];
      }
    }

    method FireMotion(mac: Mac) returns (ok: bool)
      requires Valid()
      modifies this`tx
      ensures ok <==> tx != old(tx)
      ensures View() == Sim.FireMotion(old(View()), mac)
    {
      if mac !in nodes || !nodes[mac].enrolled || nodes[mac].offline {
        return false;
      }
      Write(MotionMsg(nodes[mac].mac, nodes[mac].relays));
      return true;
    }

    method SetOffline(mac: Mac, offline: bool) returns (ok: bool)
      requires Valid()
      modifies this`nodes
      ensures Valid() && ok == (mac in old(nodes)) && View() == Sim.SetOffline(old(View()), mac, offline)
    {
      ok := mac in nodes;
      if ok {
        nodes := nodes[mac := nodes[mac].(offline := offline)];
      }
    }
  }

  ghost method SomeOrder(keys: set<Mac>) returns (order: seq<Mac>)
    ensures IsOrder(order, keys)
  {
    order := [];
    var todo := keys;
    while todo != {}
      invariant todo <= keys && IsOrder(order, keys - todo)
      decreases todo
    {
      var k :| k in todo;
      order := order + [k];
      todo := todo - {k};
    }
  }
}
