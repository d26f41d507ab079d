/** What the hub makes of the reports nodes send: from the node's own fields, through the frame, to the registry. */
module ReportProofs {
  import opened Bytes
  import opened Clock
  import opened MacText
  import opened Wire
  import Auth
  import Hub
  import Nodes

  /** Different relay lists are stored as different texts. */
  lemma RouteTextInjective(a: seq<Mac>, b: seq<Mac>)
    requires Nodes.RouteText(a) == Nodes.RouteText(b)
    ensures a == b
  {
    assert |a| == |Nodes.RouteText(a)| == |b|;
    forall i | 0 <= i < |a| ensures a[i] == b[i] {
      assert Nodes.RouteText(a)[i] == Nodes.RouteText(b)[i];
      MacToStringInjective(a[i], b[i]);
    }
  }

  /** A node's route report is stored as exactly its relay list when it has at most ten relays, and changes nothing when
      it has more. Either way no other node's entry changes. */
  lemma RouteReportIsStored(h: Hub.State, mac: Mac, relays: seq<Mac>, hints: Hub.Hints, now: int)
    ensures var r := Hub.HandleMessage(h, RouteReportMsg(mac, relays), hints, now);
      && (|relays| > 10 ==> r == h)
      && (|relays| <= 10 ==> mac in r.nodes && r.nodes[mac].routePath == Nodes.RouteText(relays)
                             && r.nodes.Keys == h.nodes.Keys + {mac})
      && forall k :: k in h.nodes && k != mac ==> k in r.nodes && r.nodes[k] == h.nodes[k]
  {
    RouteRoundTrip(mac, relays);
  }

  /** A node's health report sets its entry's four report fields, the uptime cut to 32 bits and the adapter type read as
      a signed byte, and leaves its ID, name and zone, and every other entry, as they were. */
  lemma HealthReportIsStored(h: Hub.State, mac: Mac, relays: seq<Mac>, adapterType: int, uptime: nat, hints: Hub.Hints, now: int)
    ensures var r := Hub.HandleMessage(h, HealthMsg(mac, relays, adapterType, uptime), hints, now);
      && mac in r.nodes
      && r.nodes == h.nodes[mac := Nodes.Entry(h.nodes, mac).(adapterType := SignedByte(ToByte(adapterType)),
                                                              uptime := uptime % 0x1_0000_0000,
                                                              lastSeen := At(now), hopCount := |relays| + 1)]
      && (-128 <= adapterType <= 127 ==> r.nodes[mac].adapterType == adapterType)
  {
    HealthRoundTrip(mac, relays, adapterType, uptime);
    var m := HealthMsg(mac, relays, adapterType, uptime);
    assert m.data[0] == OP_NODE_HEALTH && m.data[1] == ToByte(adapterType);
    assert Hub.HandleMessage(h, m, hints, now) == Hub.HandleHealth(h, m, now);
  }

  /** A route report is filed under whatever origin it names, of any length: the one way an entry whose address is not six
      bytes long comes about. Such an entry has no ID, and its key does not parse back. */
  lemma OddOriginIsFiled(h: Hub.State, origin: Bytes, hints: Hub.Hints, now: int)
    requires |origin| != 6 && origin !in h.nodes
    ensures var m := RouteReportMsg(Zeros(6), []).(origin := origin);
      var r := Hub.HandleMessage(h, m, hints, now);
      origin in r.nodes && r.nodes[origin].nodeID == 0 && StringToMac(MacToString(r.nodes[origin].mac)) == None
  {
    KeyRoundTrip(origin);
  }

  lemma RequestFilesSixBytes(h: Hub.State, m: MeshMessage, hint: Bytes, now: int)
    ensures forall k :: k in Hub.HandleEnrollment(h, m, hint, now).nodes && k !in h.nodes ==> |k| == 6
  {
    if Hub.IsRequest(m) {
      var mac: Mac, key: Key := m.origin[..6], m.publicKey;
      var h1 := h.(auth := Auth.AddPending(h.auth, mac, key, now));
      if Auth.IsRepeat(h.auth, mac, key) {
        Hub.EnrollEffect(h1, mac, Hub.ResendParams(h1.nodes, mac), hint, now);
      }
    }
  }

  lemma SerialFilesSixBytes(h: Hub.State, m: MeshMessage, hints: Hub.Hints, now: int)
    ensures forall k :: k in Hub.HandleSerial(h, m, hints, now).nodes && k !in h.nodes ==> |k| == 6
  {
    var report := ParseHealthReport(m);
    if report.Some? {
      var r := report.value;
      var t := Nodes.Update(h.nodes, r.mac, r.adapterType, r.uptime, r.hopCount, now);
      assert Hub.HandleHealth(h, m, now).nodes == t;
    }
  }

  lemma RouteFilesItsOrigin(h: Hub.State, m: MeshMessage)
    ensures Hub.HandleRoute(h, m).nodes.Keys <= h.nodes.Keys + {m.origin}
  {
  }

  lemma MotionFilesNothing(h: Hub.State, m: MeshMessage)
    ensures Hub.HandleMotion(h, m).nodes == h.nodes
  {
  }

  /** Nothing else the hub receives can do that. */
  lemma OnlyRouteReportsFileOddOrigins(h: Hub.State, m: MeshMessage, hints: Hub.Hints, now: int, k: Bytes)
    requires |k| != 6 && k !in h.nodes && k in Hub.HandleMessage(h, m, hints, now).nodes
    ensures m.messageType == MSG_ROUTE_REPORT && m.origin == k
  {
    if m.messageType == MSG_ROUTE_REPORT {
      RouteFilesItsOrigin(h, m);
    } else if m.messageType == MSG_ENROLLMENT {
      RequestFilesSixBytes(h, m, hints.holder, now);
    } else if m.dataType == TYPE_SERIAL {
      SerialFilesSixBytes(h, m, hints, now);
    } else {
      MotionFilesNothing(h, m);
    }
  }

  // ----- Commands -----

  /** What the opcode table says a command payload means: the action, and the colour for a solid light. */
  function ReadCommand(p: Bytes): Option<(string, Bytes)>
    requires |p| == MAX_DATA
  {
    if p[0] == OP_LED_SOLID then Some(("led_solid", p[1..4]))
    else if p[0] == OP_LED_OFF then Some(("led_off", []))
    else if p[0] == OP_RELAY_SET && p[1] == 1 then Some(("relay_on", []))
    else if p[0] == OP_RELAY_SET && p[1] == 0 then Some(("relay_off", []))
    else None
  }

  /** A payload is built exactly for the four actions, a solid light needing three colour bytes; it reads back as the same
      action and colour, and the token in its last two bytes changes nothing of that. */
  lemma CommandReadsBack(action: string, colour: Bytes, token: Token)
    ensures var p := Hub.CommandPayload(action, colour, token);
      && (p.Some? <==> action in {"led_solid", "led_off", "relay_on", "relay_off"} && (action == "led_solid" ==> |colour| == 3))
      && (p.Some? ==> ReadCommand(p.value) == Some((action, if action == "led_solid" then colour else []))
                      && PayloadToken(p.value) == token)
  {
    var p := Hub.CommandPayload(action, colour, token);
    if action == "led_solid" && |colour| == 3 {
      assert p.value[1..4] == colour;
    }
  }
}
