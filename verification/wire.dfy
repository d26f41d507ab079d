/** Mesh frames: the message record, the protocol constants, and the frames each side builds and parses.
    The functions say what a frame is; the methods fill payload buffers in place, as the sources do. */
module Wire {
  import opened Bytes

  const MSG_ADAPTER_DATA := 0
  const MSG_ENROLLMENT := 2
  const MSG_SERIAL_CMD_BROADCAST := 3
  const MSG_JOIN_ACK := 4
  const MSG_ROUTE_REPORT := 5

  const TYPE_UNKNOWN := 0
  const TYPE_SERIAL := 1
  const TYPE_PIR := 2
  const TYPE_LED := 3
  const TYPE_RELAY := 4

  const OP_HEALTH_REQ: byte := 0xB0
  const OP_HEALTH_REPORT: byte := 0xB1
  const OP_NODE_HEALTH: byte := 0xB2
  const OP_NODE_ID_SET: byte := 0xC0
  const OP_CONFIG_SET: byte := 0xC1
  const OP_LED_SOLID: byte := 0xD0
  const OP_LED_OFF: byte := 0xD1
  const OP_RELAY_SET: byte := 0xD8
  const OP_COMMAND_ACK: byte := 0xE0

  const MAX_DATA := 64
  const MAC_LEN := 6
  const BROADCAST_MAC: Mac := [0xFF, 0xFF, 0xFF, 0xFF, 0xFF, 0xFF]

  /** The adapter types that accept commands. */
  predicate IsOutput(adapterType: int) {
    adapterType == TYPE_LED || adapterType == TYPE_RELAY
  }

  /** A mesh frame. `routeLen` is None when the optional field is absent. */
  datatype MeshMessage = MeshMessage(
    protoVersion: nat,
    messageType: nat,
    dataType: int,
    origin: Bytes,
    target: Bytes,
    publicKey: Bytes,
    data: Bytes,
    hopCount: nat,
    routeLen: Option<nat>,
    routePath: Bytes)

  const BLANK := MeshMessage(5, MSG_ADAPTER_DATA, TYPE_UNKNOWN, [], [], [], [], 0, None, [])

  /** Go's byte(int32): the low eight bits. */
  function ToByte(n: int): byte {
    n % 256
  }

  /** Go's int32(int8(b)): the byte read as a signed number. */
  function SignedByte(b: byte): int {
    if b < 128 then b else b - 256
  }

  // ----- Hub to node -----

  /** The identity the hub stamps into its frames; a zero secondary MAC means single-master. */
  datatype Identity = Identity(mac: Mac, key: Key, secondaryMac: Mac, secondaryKey: Key)

  function JoinAckData(me: Identity, nodeKey: Key): (d: Bytes)
    ensures |d| == MAX_DATA && d[..4] == nodeKey[..4]
  {
    nodeKey[..4]
    + (if me.secondaryMac != Zeros(6) then me.secondaryMac + me.secondaryKey else Zeros(38))
    + Zeros(22)
  }

  function JoinAckMsg(me: Identity, mac: Mac, nodeKey: Key): MeshMessage {
    BLANK.(messageType := MSG_JOIN_ACK, origin := me.mac, target := mac, publicKey := me.key,
           data := JoinAckData(me, nodeKey))
  }

  /** A JOIN_ACK without a public key is the rejection signal. */
  function RejectMsg(me: Identity, mac: Mac): MeshMessage {
    BLANK.(messageType := MSG_JOIN_ACK, origin := me.mac, target := mac)
  }

  function NodeIdSetMsg(me: Identity, mac: Mac, nodeID: byte): MeshMessage {
    BLANK.(messageType := MSG_SERIAL_CMD_BROADCAST, dataType := TYPE_SERIAL, origin := me.mac,
           data := [OP_NODE_ID_SET] + mac + [nodeID] + Zeros(56))
  }

  function ConfigSetMsg(me: Identity, mac: Mac, adapterType: int): MeshMessage {
    BLANK.(dataType := TYPE_SERIAL, origin := me.mac, target := mac,
           data := [OP_CONFIG_SET] + mac + [ToByte(adapterType)] + Zeros(56))
  }

  function HealthRequestMsg(): MeshMessage {
    BLANK.(dataType := TYPE_SERIAL, data := [OP_HEALTH_REQ] + Zeros(63))
  }

  /** Pads to 64 bytes and drops the rest, as copying into a 64-byte buffer does. */
  function Padded(data: Bytes): (p: Bytes)
    ensures |p| == MAX_DATA
  {
    if |data| >= MAX_DATA then data[..MAX_DATA] else data + Zeros(MAX_DATA - |data|)
  }

  function NodeDataMsg(dataType: int, data: Bytes): MeshMessage {
    BLANK.(messageType := MSG_SERIAL_CMD_BROADCAST, dataType := dataType, data := Padded(data))
  }

  /** The correlation token a command payload carries in its last two bytes. */
  function PayloadToken(data: Bytes): Token
    requires |data| >= MAX_DATA
  {
    (data[MAX_DATA - 2], data[MAX_DATA - 1])
  }

  // ----- Node to hub -----

  function Envelope(mac: Mac, relays: seq<Mac>): MeshMessage {
    BLANK.(origin := mac, hopCount := |relays| + 1)
  }

  function HealthMsg(mac: Mac, relays: seq<Mac>, adapterType: int, uptime: nat): MeshMessage {
    Envelope(mac, relays).(dataType := TYPE_SERIAL,
                           data := [OP_NODE_HEALTH, ToByte(adapterType)] + mac + PutUint32(uptime))
  }

  function Flatten(relays: seq<Mac>): (b: Bytes)
    ensures |b| == MAC_LEN * |relays|
  {
    if relays == [] then [] else Flatten(relays[..|relays| - 1]) + relays[|relays| - 1]
  }

  function RouteReportMsg(mac: Mac, relays: seq<Mac>): MeshMessage {
    Envelope(mac, relays).(messageType := MSG_ROUTE_REPORT, routeLen := Some(|relays|), routePath := Flatten(relays))
  }

  function EnrollmentMsg(mac: Mac, relays: seq<Mac>, key: Key): MeshMessage {
    Envelope(mac, relays).(messageType := MSG_ENROLLMENT, target := BROADCAST_MAC, publicKey := key)
  }

  function MotionMsg(mac: Mac, relays: seq<Mac>): MeshMessage {
    Envelope(mac, relays).(dataType := TYPE_PIR, data := [1])
  }

  function AckMsg(mac: Mac, relays: seq<Mac>, token: Token): MeshMessage {
    Envelope(mac, relays).(dataType := TYPE_SERIAL, data := [OP_COMMAND_ACK, token.0, token.1])
  }

  // ----- Parsing on the hub -----

  datatype HealthReport = HealthReport(mac: Mac, adapterType: int, uptime: nat, hopCount: nat)

  /** None stands for each of the three errors the parser can return. */
  function ParseHealthReport(m: MeshMessage): (r: Option<HealthReport>) {
    if m.dataType != TYPE_SERIAL || |m.data| < 12 || (m.data[0] != OP_HEALTH_REPORT && m.data[0] != OP_NODE_HEALTH)
    then None
    else Some(HealthReport(m.data[2..8], SignedByte(m.data[1]), Uint32(m.data[8..12]), m.hopCount))
  }

  /** The relay list of a route report; None when it is longer than ten hops or the bytes fall short. */
  function ParseRoute(m: MeshMessage): (r: Option<seq<Mac>>)
    ensures r.Some? <==> RouteLen(m) <= 10 && MAC_LEN * RouteLen(m) <= |m.routePath|
    ensures r.Some? ==> |r.value| == RouteLen(m)
    ensures r.Some? ==> forall i :: 0 <= i < |r.value| ==> r.value[i] == m.routePath[MAC_LEN * i..MAC_LEN * i + MAC_LEN]
  {
    var n := RouteLen(m);
    if n > 10 || |m.routePath| < n * MAC_LEN then None
    else Some(seq(n, i requires 0 <= i < n => m.routePath[MAC_LEN * i..MAC_LEN * i + MAC_LEN]))
  }

  function RouteLen(m: MeshMessage): nat {
    if m.routeLen.Some? then m.routeLen.value else 0
  }

  // ----- Round trips -----

  /** A health frame parses back to what the node put in, up to the widths of the two number fields;
      the adapter type survives exactly when it fits a signed byte. */
  lemma HealthRoundTrip(mac: Mac, relays: seq<Mac>, adapterType: int, uptime: nat)
    ensures var r := ParseHealthReport(HealthMsg(mac, relays, adapterType, uptime));
      && r.Some?
      && r.value.mac == mac
      && r.value.hopCount == |relays| + 1
      && r.value.uptime == uptime % 0x1_0000_0000
      && (r.value.adapterType == adapterType <==> -128 <= adapterType <= 127)
  {
    var d := HealthMsg(mac, relays, adapterType, uptime).data;
    assert d[2..8] == mac && d[8..12] == PutUint32(uptime);
    Uint32RoundTrip(uptime);
  }

  lemma {:induction false} FlattenAt(relays: seq<Mac>, i: nat)
    requires i < |relays|
    ensures MAC_LEN * i + MAC_LEN <= |Flatten(relays)|
    ensures Flatten(relays)[MAC_LEN * i..MAC_LEN * i + MAC_LEN] == relays[i]
  {
    var init := relays[..|relays| - 1];
    if i < |relays| - 1 {
      FlattenAt(init, i);
      assert Flatten(relays)[MAC_LEN * i..MAC_LEN * i + MAC_LEN] == Flatten(init)[MAC_LEN * i..MAC_LEN * i + MAC_LEN];
    }
  }

  /** A route report parses back to its relay list exactly when the list has at most ten relays. */
  lemma RouteRoundTrip(mac: Mac, relays: seq<Mac>)
    ensures ParseRoute(RouteReportMsg(mac, relays)) == if |relays| <= 10 then Some(relays) else None
  {
    var r := ParseRoute(RouteReportMsg(mac, relays));
    if r.Some? {
      forall i | 0 <= i < |relays| ensures r.value[i] == relays[i] {
        FlattenAt(relays, i);
      }
      assert r.value == relays;
    }
  }

  // ----- Layouts, said outright -----

  /** Where the fields of a JOIN_ACK are: the key's first four bytes, then the secondary master's address and key, all zeros
      when there is none, then zeros. */
  lemma JoinAckFields(me: Identity, mac: Mac, nodeKey: Key)
    ensures var m := JoinAckMsg(me, mac, nodeKey);
      && m.protoVersion == 5 && m.messageType == MSG_JOIN_ACK && m.origin == me.mac && m.target == mac && m.publicKey == me.key
      && |m.data| == 64 && m.data[..4] == nodeKey[..4]
      && (me.secondaryMac != Zeros(6) ==> m.data[4..10] == me.secondaryMac && m.data[10..42] == me.secondaryKey)
      && (me.secondaryMac == Zeros(6) ==> m.data[4..42] == Zeros(38))
      && m.data[42..] == Zeros(22)
  {
  }

  /** The ID frame is broadcast, and names the node and its ID in the payload. */
  lemma NodeIdSetFields(me: Identity, mac: Mac, nodeID: byte)
    ensures var m := NodeIdSetMsg(me, mac, nodeID);
      && m.protoVersion == 5 && m.messageType == MSG_SERIAL_CMD_BROADCAST && m.dataType == TYPE_SERIAL && m.origin == me.mac
      && |m.data| == 64 && m.data[0] == 0xC0 && m.data[1..7] == mac && m.data[7] == nodeID && m.data[8..] == Zeros(56)
  {
  }

  /** The type frame is addressed to the node, and names it and its type in the payload too. */
  lemma ConfigSetFields(me: Identity, mac: Mac, adapterType: int)
    ensures var m := ConfigSetMsg(me, mac, adapterType);
      && m.protoVersion == 5 && m.messageType == MSG_ADAPTER_DATA && m.dataType == TYPE_SERIAL && m.origin == me.mac
      && m.target == mac
      && |m.data| == 64 && m.data[0] == 0xC1 && m.data[1..7] == mac && m.data[7] == adapterType % 256 && m.data[8..] == Zeros(56)
  {
  }

  // ----- The builders, filling buffers in place -----

  /** Writing over the start of a buffer's zeroed rest. */
  lemma Overlay(front: Bytes, n: nat, src: Bytes)
    requires |src| <= n
    ensures Splice(front + Zeros(n), |front|, src) == front + src + Zeros(n - |src|)
  {
  }

  lemma JoinAckLayout(me: Identity, nodeKey: Key)
    ensures JoinAckData(me, nodeKey)
         == if me.secondaryMac != Zeros(6) then nodeKey[..4] + me.secondaryMac + me.secondaryKey + Zeros(22)
            else nodeKey[..4] + Zeros(60)
  {
  }

  /** Writes the next field over the buffer's zeroed rest. */
  method PutNext(buf: array<byte>, ghost front: Bytes, n: nat, src: Bytes)
    requires buf[..] == front + Zeros(n) && |src| <= n
    modifies buf
    ensures buf[..] == front + src + Zeros(n - |src|)
  {
    Overlay(front, n, src);
    CopyInto(buf, buf.Length - n, src);
  }

  method BuildJoinAck(me: Identity, mac: Mac, nodeKey: Key) returns (m: MeshMessage)
    ensures m == JoinAckMsg(me, mac, nodeKey)
  {
    var buf := new byte[MAX_DATA](_ => 0);
    assert buf[..] == [] + Zeros(64);
    PutNext(buf, [], 64, nodeKey[..4]);
    assert [] + nodeKey[..4] == nodeKey[..4];
    if me.secondaryMac != Zeros(6) {
      PutNext(buf, nodeKey[..4], 60, me.secondaryMac);
      PutNext(buf, nodeKey[..4] + me.secondaryMac, 54, me.secondaryKey);
    }
    JoinAckLayout(me, nodeKey);
    m := BLANK.(messageType := MSG_JOIN_ACK, origin := me.mac, target := mac, publicKey := me.key, data := buf[..]);
  }

  method BuildNodeIdSet(me: Identity, mac: Mac, nodeID: byte) returns (m: MeshMessage)
    ensures m == NodeIdSetMsg(me, mac, nodeID)
  {
    var buf := new byte[MAX_DATA](_ => 0);
    buf[0] := OP_NODE_ID_SET;
    assert buf[..] == [OP_NODE_ID_SET] + Zeros(63);
    PutNext(buf, [OP_NODE_ID_SET], 63, mac);
    buf[7] := nodeID;
    assert buf[..] == [OP_NODE_ID_SET] + mac + [nodeID] + Zeros(56);
    m := BLANK.(messageType := MSG_SERIAL_CMD_BROADCAST, dataType := TYPE_SERIAL, origin := me.mac, data := buf[..]);
  }

  /** Fails exactly on a target that is not six bytes long. The caller stamps the origin. */
  method BuildConfigSet(target: Bytes, adapterType: int) returns (m: Option<MeshMessage>)
    ensures m.None? <==> |target| != MAC_LEN
    ensures forall me: Identity :: m.Some? ==> m.value.(origin := me.mac) == ConfigSetMsg(me, target, adapterType)
  {
    if |target| != MAC_LEN {
      return None;
    }
    var buf := new byte[MAX_DATA](_ => 0);
    buf[0] := OP_CONFIG_SET;
    assert buf[..] == [OP_CONFIG_SET] + Zeros(63);
    PutNext(buf, [OP_CONFIG_SET], 63, target);
    buf[7] := ToByte(adapterType);
    assert buf[..] == [OP_CONFIG_SET] + target + [ToByte(adapterType)] + Zeros(56);
    m := Some(BLANK.(dataType := TYPE_SERIAL, target := target, data := buf[..]));
  }

  method BuildHealth(mac: Mac, relays: seq<Mac>, adapterType: int, uptime: nat) returns (m: MeshMessage)
    ensures m == HealthMsg(mac, relays, adapterType, uptime)
  {
    var buf := new byte[12](_ => 0);
    buf[0] := OP_NODE_HEALTH;
    buf[1] := ToByte(adapterType);
    ghost var front := [OP_NODE_HEALTH, ToByte(adapterType)];
    assert buf[..] == front + Zeros(10);
    PutNext(buf, front, 10, mac);
    PutNext(buf, front + mac, 4, PutUint32(uptime));
    assert buf[..] == front + mac + PutUint32(uptime);
    m := Envelope(mac, relays).(dataType := TYPE_SERIAL, data := buf[..]);
  }

  method BuildRouteReport(mac: Mac, relays: seq<Mac>) returns (m: MeshMessage)
    ensures m == RouteReportMsg(mac, relays)
  {
    m := Envelope(mac, relays).(messageType := MSG_ROUTE_REPORT, routeLen := Some(|relays|));
    if |relays| > 0 {
      var buf := new byte[|relays| * MAC_LEN](_ => 0);
      for i := 0 to |relays|
        invariant buf[..i * MAC_LEN] == Flatten(relays[..i])
      {
        CopyInto(buf, i * MAC_LEN, relays[i]);
        assert relays[..i + 1][..i] == relays[..i];
        assert buf[..(i + 1) * MAC_LEN] == Flatten(relays[..i]) + relays[i];
      }
      assert relays[..|relays|] == relays && buf[..|relays| * MAC_LEN] == buf[..];
      m := m.(routePath := buf[..]);
    }
  }

  /** The loop of the hub's route handler, cutting the header bytes into relay addresses. */
  method CutRoute(m: MeshMessage) returns (relays: seq<Mac>)
    requires ParseRoute(m).Some?
    ensures Some(relays) == ParseRoute(m)
  {
    relays := [];
    for i := 0 to RouteLen(m)
      invariant relays == ParseRoute(m).value[..i]
    {
      relays := relays + [m.routePath[i * MAC_LEN..(i + 1) * MAC_LEN]];
    }
    assert relays == ParseRoute(m).value;
  }
}
