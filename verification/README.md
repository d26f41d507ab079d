# The mesh hub protocol, verified

A Dafny model of the hub (the mesh server with its trust, node and command registries), the mesh nodes (the simulator that
stands for them in the repository), the two FIFO links between them, and the self-contained parts around that protocol: MAC
text keys, frames on a byte stream, the replay ring, the event broker, the event store's accounting, registry persistence,
and the portal's topology.

`dafny verify dfyconfig.toml` checks everything.

## How it is organised

- **Values and classes.** `Hub`, `Sim`, `Nodes`, `Auth` and `Commands` say on plain values what each operation does.
  `MeshServer`, `Simulator`, `NodeRegistry`, `Registry` and `CommandStore` are classes that update their fields in place, with
  the loops and buffers of the program, and every method is proved to do exactly what the value-level operation says. So are
  `ReplayCache`, `EventBroker`, `SerialComm` and `Store` in their own modules.
- **The step system.** `Protocol` joins hub, nodes, links and time. Every API call, frame delivery, tick, spawn, offline check
  and passing of time is one step, and a history is a run from empty registries and empty links. `Network` joins the two
  classes and records that whatever is called on them is such a history, so everything proved of histories holds of the objects.
- **The hub on its own.** `HubRuns` has runs whose steps are the hub's API calls, the receipt of any frame whatever, and the
  link taking a frame away. Nothing is assumed of who sends the frames. Unique IDs, trust, presence and one event for each
  acknowledgement are proved there, and every history of the whole system is such a run, so they hold of histories too. What
  needs the nodes (agreement, self-heal, commands carried out) is proved of histories, whose nodes keep one key each.
- **Main results over whole runs.** Unique logical IDs (`HubRuns`) and agreement across the link (`IdentityProofs`); trust
  (`TrustProofs`); no frame storm and self-heal (`DrainProofs`); commands and acknowledgements (`CorrelationProofs`);
  presence (`PresenceProofs`). What one approval does, hotswap and repeat included, is in `EnrollmentProofs`.
- **One operation at a time.** `Outcomes` and `SimOutcomes` say outright what each operation of the hub and of the simulator
  leaves behind: which entries, records, events and frames, and that nothing else changes. `EnrollmentProofs`, `HubEffects`
  and `ReportProofs` add hotswaps, repeats, edits and stored reports; `Kafka` and `Topology` hold the same for their own parts.
- **Choices.** Where Go iterates over a map, a `hint` (which match a lookup meets first) or an `order` (how a loop walks the
  keys) is a parameter, and every result holds for all of them. Time is a number that never decreases in a history, nor
  in the hub runs with a clock; the other results on hub runs hold whatever times their inputs carry.

## What is assumed

- A handler, an API call, a tick and a delivery are each one atomic step. Handlers of different goroutines interleaving inside
  one approval are not modelled; `HubEffects.HotswapWindow` says what another goroutine could see there.
- The hub is started, single-master, and its writes succeed; the simulator is connected. One writer for each link.
- Simulated nodes are spawned under the canonical spelling of their MAC, which is how frames look them up.
- Registries are keyed by address bytes. The program keys them by text; `MacText.MacToStringInjective` shows that is the same,
  and `Persistence` works with the text keys.
- Command UUIDs are new when drawn and are identified by their 16 bytes. Public keys are opaque 32-byte values; the key a
  spawned node derives from its MAC is a parameter.
- The output types, those that accept commands, are LED and relay. The adapter package that decides this is an external library
  and not part of this model.
- The message codec is a parameter; round trips require of it only that the messages at hand decode back.
- Counters and durations do not overflow (`AckCount`, `FailedWrites`, nanosecond arithmetic); uptime wraps at 2^32 seconds.

## What the proofs found

- A status of "replaced" is never cleared. A replaced node that is approved again gets an ID that leads nowhere
  (`EnrollmentProofs.ApprovedIDLookup`), and its next repeat request can mark a live node replaced without any administrator's
  decision (`EnrollmentProofs.ReplacedNodeEvicts`, reachable by `EnrollmentProofs.EvictionIsReachable`). `ResendIsIdempotent`
  says exactly when a repeat is harmless.
- `docs/wire_protocol.md` is out of date on requests from known nodes; the code is followed: a rejection does not last, and
  only an approved node repeating the approved key is answered without the administrator.
- Overlapping publishers can deliver two events to two subscribers in opposite orders, and whenever one Publish begins while
  another still owes a channel its event, that subscriber may see them the wrong way round (`BrokerSteps.OverlapCanDisorder`).
- `TopicsReady` is false after an unanswered attempt even when every topic is known to be ready.
- Two nodes that report each other as parents make a cycle in the portal's topology.
- A node entry whose address is not six bytes long is lost when the registry is saved and loaded. A route report, and nothing
  else the hub can receive, creates one (`ReportProofs.OddOriginIsFiled`, `ReportProofs.OnlyRouteReportsFileOddOrigins`).
- A replay that is caught does not refresh its slot, so a message can be accepted again soon after it was caught
  (`Replay.CaughtReplaySlipsThrough`); `Replay.ReplayIsCaught` is the exact condition.
- Command tokens can collide, and then which command an acknowledgement resolves is up to map order.

## Model

| member | source | states |
|---|---|---|
| `HubRuns.IDsStayUnique` | server/orchestrator/mesh/server.go:697-732 | Whatever API calls are made and whatever frames arrive, from whomever, no two entries whose status is not replaced share a nonzero logical ID, so a lookup by ID has one answer whatever order Go walks the map in |
| `HubRuns.HistoryIsHubRun` | server/orchestrator/mesh/server.go:414-446 | What the hub goes through in any run of the whole system is a run of the hub alone, so everything proved of hub runs holds there |
| `IdentityProofs.SidesAgree` | server/orchestrator/mesh/server.go:773-789 | In every reachable state a MAC with a nonzero ID at the hub is a mesh node, and reading the frames still in flight leaves that node with exactly the hub's ID; with none in flight both sides already agree |
| `IdentityProofs.DeliveryFollowsFinalID` | server/orchestrator/meshsim/sim.go:227-233 | The fold over in-flight frames used to state agreement is what delivering the queue one frame at a time does to the simulated node |
| `IdentityProofs.IdentityStep` | server/orchestrator/mesh/server.go:691-803 | Every step of the system keeps ID uniqueness, agreement across the link, and that trust records and requests in flight carry the nodes' own keys |
| `HubEffects.HotswapWindow` | server/orchestrator/mesh/server.go:726-732 | Between assigning the new node and marking the old one replaced, uniqueness is broken exactly when the new node's own entry is not already replaced; the second write always restores it |
| `HubEffects.InstallKeepsGood` | server/orchestrator/mesh/server.go:697-732 | An approval, hotswap or not, leaves unique IDs, and leaves every holder of an ID with a six-byte address and a name |
| `HubEffects.RoutineStep` | server/orchestrator/mesh/api_v1_nodes.go:41-187 | No API call but the two trust decisions gives any node a new ID, touches trust, or writes a JOIN_ACK or an ID assignment |
| `HubEffects.RoutineMessage` | server/orchestrator/mesh/server.go:414-446 | No frame but a request to join gives any node a new ID, touches trust, or makes the hub write one |
| `HubEffects.UpdateNodeEffect` | server/orchestrator/mesh/api_v1_nodes.go:63-91 | Editing a node keeps its ID and every other entry and changes nothing but the table and the frames; an unwritable type changes nothing at all; CONFIG_SET goes to that node exactly when a type was given |
| `Outcomes.TypeNames` | server/orchestrator/mesh/api_v1_nodes.go:63-72 | Exactly pir, led and relay are type names; they stand for 2, 3 and 4 |
| `Outcomes.ConfigureOutcome` | server/orchestrator/mesh/server.go:902-912 | Configuring a six-byte address sends exactly one frame, which sets the type of that node and of no other, cut to a byte; any other address changes nothing |
| `HubEffects.DeleteNodeEffect` | server/orchestrator/mesh/api_v1_nodes.go:103-108 | Deleting by ID removes exactly the holder's entry, and afterwards the ID leads nowhere |
| `TrustProofs.GrantsFollowApproval` | server/orchestrator/mesh/server.go:742-771 | Whatever frames the hub receives, every JOIN_ACK with a 32-byte key it ever sent follows an administrator's approval of its target, for the key whose first four bytes it carries, with no rejection and no request with another key for that node in between |
| `TrustProofs.GrantsInFlightAreLogged` | server/orchestrator/mesh/server.go:769-771 | Every accepting JOIN_ACK still in flight is one of those the trace records, in every run of the hub |
| `TrustProofs.RegistryIsAdminsLastWord` | server/orchestrator/nodeauth/registry.go:48-110 | Whatever frames arrive, the registry holds a node approved for a key exactly when the administrator approved it for that key and since then neither rejected it nor a request for it with another key arrived |
| `TrustProofs.ApprovalIsLostBy` | server/orchestrator/nodeauth/registry.go:48-110 | In any run of the hub a standing approval ends with a step exactly when that step is the rejection of that node or the receipt of a well-formed request for it with another key |
| `TrustProofs.RekeyIsPending` | server/orchestrator/nodeauth/registry.go:57-69 | A request with a changed key drops a standing approval: the record becomes pending under the new key, no node entry changes and no frame is sent |
| `TrustProofs.RekeyRun` | server/orchestrator/nodeauth/registry.go:57-69 | For every node and any two keys there is a run in which this happens: it asks, is approved, and asks again with the other key |
| `TrustProofs.HubTrustStep` | server/orchestrator/mesh/server.go:414-446 | Every API call and every frame whatever keeps: registry and decision trace agree, and every grant sent is backed by an approval that stood then |
| `TrustProofs.EnrolledMeansApproved` | server/orchestrator/meshsim/sim.go:187-198 | A node not enrolled from the start is enrolled only if it was sent an accepting JOIN_ACK while an administrator's approval stood for its own key |
| `TrustProofs.TrustStep` | server/orchestrator/mesh/server.go:691-865 | Every step keeps: registry and decision trace agree, every grant is backed by a standing approval, every enrolled node was granted |
| `EnrollmentProofs.HotswapTable` | server/orchestrator/mesh/server.go:706-732 | Approving with an ID another live node holds gives the new MAC that ID and the name and zone left blank, keeps the old entry with ID 0, status replaced and ReplacedBy set, and touches no third entry |
| `EnrollmentProofs.HotswapFrames` | server/orchestrator/mesh/server.go:742-802 | A hotswap writes JOIN_ACK, NODE_ID_SET, and then CONFIG_SET exactly when the type was left blank and the old type was known |
| `EnrollmentProofs.ApprovedIDLookup` | server/orchestrator/mesh/node_registry.go:147-160 | After an approval the ID leads back to the approved node, except when its entry was marked replaced earlier: AssignNode never clears that mark, and then the ID leads nowhere |
| `EnrollmentProofs.ResendIsIdempotent` | server/orchestrator/mesh/server.go:812-830 | A repeat of the approved request leaves the node registry unchanged exactly when the node is settled: its ID is held by no other live entry, or it has no ID, a name, and no ID is free |
| `EnrollmentProofs.ResendFrames` | server/orchestrator/mesh/server.go:549-562 | A repeat changes only timestamps in the trust record and writes exactly a JOIN_ACK for that key and then the node's ID if it has one, the same ID as before if it had one |
| `EnrollmentProofs.LiveNodesAreSettled` | server/orchestrator/mesh/server.go:812-816 | Every node with a nonzero ID and a status other than replaced is settled, so its repeats change nothing |
| `EnrollmentProofs.ReplacedNodeEvicts` | server/orchestrator/mesh/server.go:710-732 | A replaced node that holds an ID again evicts, by its repeat request alone, the live node with that ID |
| `EnrollmentProofs.EvictionIsReachable` | server/orchestrator/mesh/node_registry.go:87-89 | For any three nodes there is a run of the hub from empty registries, eight steps long, in which such an eviction happens on the receipt of a request, with no administrator step |
| `Outcomes.ApprovalOutcome` | server/orchestrator/mesh/server.go:691-803 | An approval that displaces nobody leaves exactly one entry changed, which gets the ID asked for or the lowest free one, the administrator's name or the address text for none, and the administrator's zone; it publishes that as enrolled, and sends the JOIN_ACK and then the ID if there is one |
| `Outcomes.HotswapIsAnnounced` | server/orchestrator/mesh/server.go:734-740 | A hotswap publishes the new node under the ID, with the name given or else the old node's |
| `Outcomes.UnknownIsRefused` | server/orchestrator/nodeauth/registry.go:81-110 | An address that never asked can be neither approved nor rejected: nothing changes |
| `Outcomes.RepeatOutcome` | server/orchestrator/mesh/server.go:812-830 | A repeat that displaces nobody keeps a nonzero ID, gives the lowest free one to an entry without, keeps name and zone with the address text for no name, and touches no other entry |
| `Outcomes.RejectionOutcome` | server/orchestrator/mesh/server.go:834-865 | A rejection marks exactly that record, and appends exactly one JOIN_ACK, without a key, addressed to that node; nothing else changes |
| `Outcomes.RejectionStopsNode` | server/orchestrator/meshsim/sim.go:185-198 | The node that reads it is marked rejected and stops asking, and no other node changes |
| `Outcomes.RequestIsFiled` | server/orchestrator/mesh/server.go:534-590 | A well-formed request that is no repeat is filed as pending under its own key with its time, and neither answered nor announced |
| `Outcomes.DroppedFrames` | server/orchestrator/mesh/server.go:414-478 | Another protocol version, a malformed request, and every kind, type or opcode the hub does not handle change nothing at all |
| `Hub.EnrollEffect` | server/orchestrator/mesh/server.go:691-803 | An approval changes one trust record and the node registry, publishes one event, and writes the JOIN_ACK, the ID and the inherited type in that order |
| `DrainProofs.DeliveriesTerminate` | server/orchestrator/mesh/server.go:549-562 | No frame storm: from any state, deliveries alone end after at most three steps for each frame towards the hub and one plus the number of nodes for each frame towards the nodes |
| `DrainProofs.DeliverUpShrinks` | server/orchestrator/mesh/server.go:414-446 | Reading any frame at the hub, whatever answers it provokes, lowers a measure of the frames in flight |
| `DrainProofs.DeliverDownShrinks` | server/orchestrator/meshsim/sim.go:182-219 | Reading any frame at the simulator, whatever acknowledgements it provokes, lowers the same measure |
| `DrainProofs.RepeatHeals` | server/orchestrator/mesh/server.go:550-562 | If a request with an approved record's key is in flight at some point of a run, then once deliveries have emptied both links that node is enrolled |
| `DrainProofs.ApprovalEnrolls` | server/orchestrator/mesh/server.go:684-802 | After an administrator approves a node that asked, once deliveries alone have emptied both links that node is enrolled, has the ID the hub holds for it, and has the adapter type the approval inherited, if it inherited one |
| `DrainProofs.HotswapEnrolls` | server/orchestrator/mesh/server.go:687-690 | A hotswap with the type left blank, followed by deliveries until both links are empty, leaves the new node enrolled and with the old node's adapter type, cut to a byte |
| `DrainProofs.Drained` | server/orchestrator/mesh/server.go:549-562 | Delivering until nothing is in flight is a total operation that ends with both links empty |
| `DrainProofs.DrainingHeals` | server/orchestrator/meshsim/sim.go:185-198 | Draining both links from any state the invariants allow enrolls a node that is approved and asking, or whose JOIN_ACK is in flight |
| `CorrelationProofs.AckedIffCarriedOut` | server/orchestrator/mesh/command_store.go:66-88 | With nothing on its way to the hub, a command whose token is not (0,0) and is shared with no other command is acked exactly when its own frame reached a node that was then enrolled, powered and of the type it was issued for |
| `CorrelationProofs.AckedMeansCarriedOut` | server/orchestrator/mesh/api_v1_nodes.go:165-179 | Whatever is in flight, such a command is acked only if that very frame reached a node able to carry it out |
| `CorrelationProofs.EventsMatchAcks` | server/orchestrator/mesh/server.go:505-530 | Whatever frames arrive, exactly the acked commands have a command_ack event, and each has exactly one |
| `CorrelationProofs.AckedForGood` | server/orchestrator/mesh/command_store.go:72-84 | Whatever frames arrive, no command ever leaves the acked state |
| `CorrelationProofs.TokenResolvesOnlyIfUnshared` | server/orchestrator/mesh/command_store.go:72-85 | A token is certain to resolve to a command, whatever the map order, exactly when that command is pending and no other pending one has the token |
| `CorrelationProofs.AcceptedIsAcked` | server/orchestrator/meshsim/sim.go:206-216 | Every enrolled, powered node of the frame's type answers a command frame with its token |
| `CorrelationProofs.QuietStep` | server/orchestrator/mesh/api_v1_zones.go:73-105 | No API call but issuing a node command stores, sends or acknowledges a command that carries a token; zone commands carry none |
| `CorrelationProofs.IssueEffect` | server/orchestrator/mesh/api_v1_nodes.go:118-179 | A node command changes nothing, or appends one frame for an output type with its own token and stores a pending command; `Outcomes.NodeCommandOutcome` says which of the two, and what the frame tells which nodes |
| `Outcomes.NodeCommandOutcome` | server/orchestrator/mesh/api_v1_nodes.go:112-187 | A command to the holder of an ID is accepted exactly when the holder is a light or relay and the action one of the four, a solid light with three colour bytes; then exactly one frame is sent, to the holder's type, which reads back as that action, colour and token, and the command is stored as pending for that ID; otherwise nothing changes |
| `Outcomes.UnheldIDIsRefused` | server/orchestrator/mesh/api_v1_nodes.go:118-122 | A command, an edit or a deletion for an ID nobody holds changes nothing |
| `Outcomes.ZoneCommandOutcome` | server/orchestrator/mesh/api_v1_zones.go:73-105 | A zone command sends exactly one frame for each light and relay of that zone that is not replaced, each once, in map order, to its own type, which reads back as the action and colour with no token; an unknown action does nothing |
| `CorrelationProofs.CommandStep` | server/orchestrator/mesh/server.go:505-530 | Every step keeps: command frames, in flight or delivered, trace back to issued commands, acknowledgements in flight trace back to accepting nodes, acked commands to both |
| `PresenceProofs.PresenceAlternates` | server/orchestrator/mesh/server.go:1023-1031 | Whatever frames arrive, node_online and node_offline alternate for every MAC, starting with online, and the hub's flags say what the last event said |
| `PresenceProofs.SilenceIsNoticed` | server/orchestrator/mesh/server.go:1059-1077 | Whatever frames arrive, with a clock that never goes back and checks at most P apart, an online node that stays registered but silent is reported offline by a check later than the timeout after its last report and no later than P after that; until then it counts as online |
| `HubRuns.HistoryIsClocked` | server/orchestrator/mesh/server.go:1046-1057 | A run of the whole system gives the hub a clock that never goes back, with the times of its offline checks |
| `PresenceProofs.CheckFindsOverdue` | server/orchestrator/mesh/server.go:1061-1076 | A check takes offline exactly the online entries that are overdue, and publishes exactly one node_offline for each and none for anyone else, whatever the order of the scan |
| `ReportProofs.RouteReportIsStored` | server/orchestrator/mesh/server.go:635-657 | A route report is stored as exactly the node's relay list when that has at most ten relays; a longer one changes nothing; no other entry changes either way |
| `ReportProofs.RouteTextInjective` | server/orchestrator/mesh/node_registry.go:230-234 | Different relay lists are stored as different texts |
| `ReportProofs.OddOriginIsFiled` | server/orchestrator/mesh/node_registry.go:219-228 | A route report files an entry under whatever origin it names; with an address not six bytes long it has no ID and its key does not parse back |
| `ReportProofs.OnlyRouteReportsFileOddOrigins` | server/orchestrator/mesh/server.go:414-446 | No other frame the hub can receive creates an entry whose address is not six bytes long |
| `ReportProofs.HealthReportIsStored` | server/orchestrator/mesh/server.go:482-498 | A health report sets the four report fields to what the node sent, type within -128..127 and uptime modulo 2^32, and leaves ID, name, zone and every other entry alone |
| `ReportProofs.CommandReadsBack` | server/orchestrator/mesh/api_v1_nodes.go:141-169 | A command payload exists exactly for the four documented actions, a solid light needing three colour bytes, and reads back by the opcode table as the same action and colour with the token at the end |
| `Outcomes.HealthIsAnnounced` | server/orchestrator/mesh/server.go:1014-1032 | A health report publishes the entry's ID and name with the uptime and hops of the frame, then node_online exactly when the node was not online, and changes one entry and one flag |
| `Outcomes.AckOutcome` | server/orchestrator/mesh/server.go:509-530 | An acknowledgement acks one pending command with its token, at that time, and publishes it with the node ID it was issued for; a short frame, or a token no pending command has, changes nothing |
| `Outcomes.RouteOutcome` | server/orchestrator/mesh/server.go:635-673 | A route report of at most ten relays stores their texts in order and, as parent, the ID the first relay has then, and is published exactly for an entry with an ID; any other changes nothing |
| `Outcomes.MotionOutcome` | server/orchestrator/mesh/server.go:593-624 | Motion at a known node, with an event store, publishes the entry's own ID, name, zone and hops; otherwise nothing changes |
| `Outcomes.HealthRequestOutcome` | server/orchestrator/mesh/message_builder.go:43-54 | A request for health sends one frame, after which every node's heartbeat is due and nothing else about any node has changed |
| `Wire.HealthRoundTrip` | server/orchestrator/mesh/message_builder.go:96-121 | A health frame parses back to the same MAC, hop count and 32-bit uptime, and to the same adapter type exactly when that fits a signed byte |
| `Wire.RouteRoundTrip` | server/orchestrator/meshsim/frames.go:38-52 | A route report parses back to its relay list, of any content, exactly when it has at most ten relays |
| `Wire.BuildJoinAck` | server/orchestrator/mesh/server.go:752-768 | The buffer filled in place is the documented JOIN_ACK layout: fingerprint at 0..4, secondary MAC and key at 4..42 when configured, zeros elsewhere |
| `Wire.BuildNodeIdSet` | server/orchestrator/mesh/server.go:775-785 | The buffer filled in place is opcode, MAC, ID and zeros |
| `Wire.BuildConfigSet` | server/orchestrator/mesh/message_builder.go:17-35 | Fails exactly on an address that is not six bytes; otherwise opcode, MAC, type byte and zeros |
| `Wire.JoinAckFields` | server/orchestrator/mesh/server.go:745-771 | A JOIN_ACK carries the hub's key, the first four bytes of the node's key, and the secondary master exactly when one is configured |
| `Wire.NodeIdSetFields` | server/orchestrator/mesh/server.go:775-789 | The ID frame is broadcast from the master with opcode 0xC0, the node's address and the ID |
| `Wire.ConfigSetFields` | server/orchestrator/mesh/message_builder.go:17-35 | The type frame is addressed to the node, with opcode 0xC1, its address and the type cut to a byte |
| `Wire.BuildHealth` | server/orchestrator/meshsim/frames.go:25-36 | The buffer filled in place is the health layout that HealthRoundTrip parses back |
| `Wire.BuildRouteReport` | server/orchestrator/meshsim/frames.go:38-52 | The loop over relays writes exactly the concatenated addresses, in order |
| `Wire.CutRoute` | server/orchestrator/mesh/server.go:650-655 | The loop over header bytes cuts out exactly the relay addresses |
| `Bytes.Uint32RoundTrip` | server/orchestrator/meshsim/frames.go:33 | Little-endian encoding of a number and back gives it modulo 2^32 |
| `SimEffects.FrameEffect` | server/orchestrator/meshsim/sim.go:182-243 | A frame changes a node's ID or type only by addressing that node, enrolls only the target of an accepting JOIN_ACK, and provokes at most one acknowledgement a node, only from accepting nodes |
| `SimEffects.TicksEffect` | server/orchestrator/meshsim/sim.go:125-164 | A tick changes nobody's identity, enrollment or power state, and writes only reports and requests that carry the node's own key |
| `SimEffects.TickIsPaced` | server/orchestrator/meshsim/sim.go:125-164 | A second tick at the same instant, in any order, sends nothing and changes nothing; `SimOutcomes.TickSendsWhatIsDue` says what the first one sends |
| `SimOutcomes.TickSendsWhatIsDue` | server/orchestrator/meshsim/sim.go:125-164 | A tick appends exactly one request from each node that is to ask and one health report from each whose heartbeat is due, in the first order, then one route report from each whose route is due, in the second; it sets the stamps and uptime of exactly those nodes |
| `SimOutcomes.SpawnedAsksAtOnce` | server/orchestrator/meshsim/sim.go:247-259 | Spawning adds one unenrolled node without an ID, of the given type, and the next tick sends its request with its key; a known address or unknown type changes nothing |
| `SimOutcomes.FrameExactly` | server/orchestrator/meshsim/sim.go:182-243 | Every field of every node after a frame, and exactly one acknowledgement, with the frame's token, from each node that carries a command out |
| `SimOutcomes.PowerOutcome` | server/orchestrator/meshsim/sim.go:280-289 | Switching power changes that flag of that node alone |
| `SimOutcomes.OfflineIsSilent` | server/orchestrator/meshsim/sim.go:125-164 | A node without power neither asks, reports nor acknowledges |
| `SimOutcomes.MotionFrameOutcome` | server/orchestrator/meshsim/sim.go:262-277 | Exactly an enrolled, powered node sends a motion frame, one, with its own address and hop count |
| `SimEffects.AcksEffect` | server/orchestrator/meshsim/sim.go:206-216 | A command frame makes at most one acknowledgement a node, only from accepting nodes, and changes nothing of any node but its count of acknowledgements |
| `Simulators.Simulator.HandleFrame` | server/orchestrator/meshsim/sim.go:182-219 | The class refines the frame delivery that `SimOutcomes.FrameExactly` states outright |
| `Simulators.Simulator.HandleSerialOp` | server/orchestrator/meshsim/sim.go:221-243 | Health request, ID and type frames update the addressed fields in place as specified, loop included |
| `Simulators.Simulator.Tick` | server/orchestrator/meshsim/sim.go:125-164 | Both passes over the map, in some order each, refine the tick that `SimOutcomes.TickSendsWhatIsDue` states outright |
| `Simulators.Simulator.SpawnNode` | server/orchestrator/meshsim/sim.go:247-259 | A known address or unknown type is refused and changes nothing; otherwise an unenrolled node appears |
| `Simulators.Simulator.FireMotion` | server/orchestrator/meshsim/sim.go:262-277 | A motion frame is sent exactly by an enrolled, powered node |
| `Simulators.Simulator.SetOffline` | server/orchestrator/meshsim/sim.go:280-289 | Only the named node's power flag changes; an unknown one is an error |
| `Network.Network.IsSafe` | server/orchestrator/mesh/server.go:414-865 | However the hub and simulator objects are called, identity, trust, correlation and presence hold of their own fields |
| `Network.Network.DeliverUp` | server/orchestrator/mesh/server.go:414-446 | Handing a frame to the hub object is one step of the step system, and the history grows by exactly it |
| `Network.Network.DeliverDown` | server/orchestrator/meshsim/sim.go:111-219 | Handing a frame to the simulator object is one step of the step system, and the history grows by exactly it |
| `Network.Network.AdminApprove` | server/orchestrator/mesh/server.go:691-810 | An approval on the hub object is one step of the step system, and the history grows by exactly it |
| `Nodes.LowestFree` | server/orchestrator/mesh/node_registry.go:103-108 | The least value in range held by no entry; 0 exactly when every one is held |
| `Nodes.FreeIDExists` | server/orchestrator/mesh/node_registry.go:94-109 | A registry with fewer than 255 entries always has a free ID (pigeonhole) |
| `Nodes.LookupIgnoresOrder` | server/orchestrator/mesh/node_registry.go:147-160 | IDs are unique among entries not replaced exactly when no lookup of a nonzero ID depends on map order |
| `Nodes.NodeRegistry.UpdateNode` | server/orchestrator/mesh/node_registry.go:46-67 | Creates or refreshes one entry; ID, name and zone are sticky |
| `Nodes.NodeRegistry.AssignNode` | server/orchestrator/mesh/node_registry.go:70-90 | Sets the identity fields of one entry, never storing an empty name, and leaves its status alone |
| `Nodes.NodeRegistry.NextFreeNodeID` | server/orchestrator/mesh/node_registry.go:94-109 | The used-set loop finds the lowest free ID |
| `Nodes.NodeRegistry.GetNodeByID` | server/orchestrator/mesh/node_registry.go:148-160 | The scan, in any order, returns a holder that is not replaced, or nothing exactly when there is none |
| `Nodes.NodeRegistry.RemoveNode` | server/orchestrator/mesh/node_registry.go:200-210 | Removes exactly that entry and reports whether it existed |
| `Nodes.NodeRegistry.UpdateNodeRoute` | server/orchestrator/mesh/node_registry.go:215-247 | Stores the relay texts in order and resolves the parent from the first relay at that moment only |
| `Nodes.NodeRegistry.MarkNodeReplaced` | server/orchestrator/mesh/node_registry.go:252-263 | Marks one existing entry replaced and takes its ID; an unknown one is ignored |
| `Auth.Registry.AddPendingNode` | server/orchestrator/nodeauth/registry.go:48-79 | Reports a repeat exactly for an approved record with this key, which only refreshes its time; everything else becomes pending |
| `Auth.Registry.ApproveNode` | server/orchestrator/nodeauth/registry.go:81-95 | Approves a known record and returns it; an unknown one is an error and changes nothing |
| `Auth.Registry.RejectNode` | server/orchestrator/nodeauth/registry.go:97-110 | Rejects a known record; an unknown one is an error and changes nothing |
| `Auth.Registry.GetApprovedPublicKey` | server/orchestrator/nodeauth/registry.go:143-151 | Returns a key exactly for approved records, and then the one a repeat must carry |
| `Auth.Registry.IsApproved` | server/orchestrator/nodeauth/registry.go:136-141 | True exactly when there is a key with which a request from this node would be answered at once |
| `Commands.CommandStore.AckByToken` | server/orchestrator/mesh/command_store.go:69-88 | Acks one pending command with this token, or nothing exactly when none is pending with it |
| `Server.MeshServer.HandleMessage` | server/orchestrator/mesh/server.go:414-446 | Whatever frame arrives, the class ends in the state the step system's hub ends in |
| `Server.MeshServer.HandleHealthReport` | server/orchestrator/mesh/server.go:482-503 | Registry update and health event in place, as the specified handler |
| `Server.MeshServer.PublishHealthEvent` | server/orchestrator/mesh/server.go:1014-1032 | One health event, and node_online only when the flag was not set |
| `Server.MeshServer.HandleCommandAck` | server/orchestrator/mesh/server.go:509-530 | A short frame or unknown token publishes nothing; otherwise one command_ack for the resolved command |
| `Server.MeshServer.HandlePIRData` | server/orchestrator/mesh/server.go:593-624 | Motion is published only with an event store and for a known node |
| `Server.MeshServer.HandleRouteReport` | server/orchestrator/mesh/server.go:635-673 | Over-long or short paths change nothing; otherwise the route is stored, and announced only for a node with an ID |
| `Server.MeshServer.HandleEnrollmentRequest` | server/orchestrator/mesh/server.go:534-590 | Malformed requests change nothing; a repeat is answered at once; anything else is filed as pending |
| `Server.MeshServer.ResendJoinAck` | server/orchestrator/mesh/server.go:817-830 | Approves again with the identity the registry already holds |
| `Server.MeshServer.ResolveAssignment` | server/orchestrator/mesh/server.go:697-724 | Refines the choice of ID, displaced node and inherited fields, for some map order; `Outcomes.ApprovalOutcome` and `EnrollmentProofs.HotswapTable` state what is chosen outright |
| `Server.MeshServer.ApproveEnrollment` | server/orchestrator/mesh/server.go:691-810 | An unknown address is an error and changes nothing; otherwise refines the enrollment that `Outcomes.ApprovalOutcome` and `EnrollmentProofs.HotswapTable` state outright |
| `Server.MeshServer.RejectEnrollment` | server/orchestrator/mesh/server.go:834-865 | An unknown address is an error and changes nothing; otherwise rejected, and the node is told |
| `Server.MeshServer.CheckOfflineNodes` | server/orchestrator/mesh/server.go:1061-1077 | The scan over all entries, in some order, does what the specified check does |
| `Server.MeshServer.NodeCommand` | server/orchestrator/mesh/api_v1_nodes.go:112-187 | Refines the command step that `Outcomes.NodeCommandOutcome` states outright; reports success exactly when a frame is sent |
| `Server.MeshServer.SendNodeData` | server/orchestrator/mesh/server.go:975-989 | The data copied into a 64-byte buffer, padded or cut |
| `Server.MeshServer.ZoneCommand` | server/orchestrator/mesh/api_v1_zones.go:73-105 | One frame for every output node of the zone that is not replaced, in some order, none with a token |
| `Server.MeshServer.UpdateNode` | server/orchestrator/mesh/api_v1_nodes.go:41-95 | Type validated before any change, then name and zone, then CONFIG_SET; succeeds exactly for an ID with a holder and a type that is absent or writable to a six-byte address |
| `Server.MeshServer.DeleteNode` | server/orchestrator/mesh/api_v1_nodes.go:97-110 | Removes the holder's entry, and succeeds exactly when there was a holder; an unknown ID is an error and changes nothing |
| `Server.MeshServer.ConfigureNode` | server/orchestrator/mesh/server.go:902-912 | Fails exactly on an address that is not six bytes |
| `Replay.ReplayCache.IsDuplicate` | server/orchestrator/nodeauth/replay.go:30-46 | True exactly when the pair is not (0,0) and is among the last 32 recorded for that MAC; the record of every other MAC is untouched |
| `Replay.NodeBuf.CheckAndRecord` | server/orchestrator/nodeauth/replay.go:38-45 | The ring scanned and overwritten in place refines the window of the last 32 recorded pairs |
| `Replay.WindowDecides` | server/orchestrator/nodeauth/replay.go:26-29 | Filling unused slots with zero pairs never changes an answer |
| `Replay.OthersDoNotMatter` | server/orchestrator/nodeauth/replay.go:15-20 | What is recorded for a MAC after any calls depends only on the calls for that MAC |
| `Replay.WindowIsDistinct` | server/orchestrator/nodeauth/replay.go:38-44 | After any calls no pair but (0,0) is in a window twice |
| `Replay.ReplayIsCaught` | server/orchestrator/nodeauth/replay.go:30-46 | After any calls for a node, a message is caught exactly when it is not (0,0), some call recorded it, and fewer than 32 pairs were recorded since |
| `Replay.CaughtReplaySlipsThrough` | server/orchestrator/nodeauth/replay.go:38-44 | A caught replay does not refresh its slot: a message, 31 others, the message again (caught), one new message, and the first is accepted once more |
| `Broker.EventBroker.Subscribe` | server/orchestrator/mesh/event_broker.go:42-48 | A new, open, empty channel is registered and nothing else changes |
| `Broker.EventBroker.Unsubscribe` | server/orchestrator/mesh/event_broker.go:51-56 | The channel is removed before it is closed, so registered channels stay open |
| `Broker.EventBroker.Publish` | server/orchestrator/mesh/event_broker.go:60-69 | Every registered channel gets the event appended, or loses it exactly when its 32 slots are full |
| `BrokerSteps.NeverPanics` | server/orchestrator/mesh/event_broker.go:51-69 | With one Unsubscribe per channel, no interleaving sends to or closes a closed channel |
| `BrokerSteps.DeliveryIsExact` | server/orchestrator/mesh/event_broker.go:58-69 | For every channel ever made, received plus buffered are exactly the events sent while its buffer was not full, in the order sent, at most 32 of them buffered, none sent twice and none from before it subscribed; while subscribed, each event since is sent to it, now or by a Publish under way |
| `BrokerSteps.SubscribersSeePublishOrder` | server/orchestrator/mesh/event_broker.go:29-34 | When no Publish begins while an earlier one still owes some channel its event, every subscriber sees events in publication order |
| `BrokerSteps.OverlapCanDisorder` | server/orchestrator/mesh/event_broker.go:60-69 | From every reachable state in which a Publish still owes a channel its event, a continuation that lets another begin delivers the two to that subscriber in the wrong order |
| `BrokerSteps.OverlappingPublishersDisagree` | server/orchestrator/mesh/event_broker.go:61-68 | Two overlapping publishers can reach two subscribers in opposite orders, because Publish holds only the read lock |
| `Framing.FrameRoundTrip` | server/orchestrator/mesh/serial.go:78-155 | A message goes through whole and leaves nothing behind exactly when its encoding has 1 to 4096 bytes |
| `Framing.StreamRoundTrip` | server/orchestrator/mesh/serial.go:110-155 | Any sequence of such messages is read back exactly and every byte is consumed |
| `Framing.TruncatedStream` | server/orchestrator/mesh/serial.go:113-144 | Any truncation of the stream yields a prefix of the messages |
| `Framing.BadLengths` | server/orchestrator/mesh/serial.go:118-150 | A length of zero, above 4096 or beyond the stream fails as such, as do undecodable data, and how much of the stream each uses up |
| `Framing.CutHeader` | server/orchestrator/mesh/serial.go:113-116 | A stream that ends within a header fails and is used up |
| `Framing.Header` | server/orchestrator/mesh/serial.go:87-89 | The two-byte header reads back as the length modulo 65536 |
| `Framing.SerialComm.Send` | server/orchestrator/mesh/serial.go:78-108 | Header and data are appended to the stream, in that order |
| `Framing.SerialComm.Receive` | server/orchestrator/mesh/serial.go:111-155 | The reader over the port refines the frame function: same results, same bytes consumed, for each error too |
| `Framing.Port.ReadFull` | server/orchestrator/mesh/serial.go:114 | Fills the buffer, or uses up the stream and fails |
| `MacText.MacToStringInjective` | server/orchestrator/mesh/node_registry.go:382-388 | Byte strings of any lengths share a registry key only if equal |
| `MacText.KeyRoundTrip` | server/orchestrator/mesh/node_registry.go:390-408 | A registry key parses back to its bytes exactly when these are six, and otherwise does not parse |
| `MacText.KeyReads` | server/orchestrator/mesh/node_registry.go:382-388 | A registry key is the two lower-case hex digits of each byte, with colons between |
| `MacText.BareHexRoundTrip` | server/orchestrator/nodeauth/registry.go:158-173 | The bare-hex form of a MAC parses back, by both parsers |
| `MacText.DecodeInvertsEncode` | server/orchestrator/nodeauth/registry.go:158-173 | Bare hex decodes to some bytes exactly when it is how they print, in either case of the letters |
| `MacText.ParsersAgree` | server/orchestrator/nodeauth/registry.go:158-173 | The two packages' parsers try the formats in opposite orders and still agree on every string |
| `Persistence.NodesRoundTrip` | server/orchestrator/mesh/node_registry.go:288-360 | Saved in any order and loaded fresh, exactly the entries with six-byte MACs come back, unchanged and under their own keys |
| `Persistence.LoadedKeysAreSaved` | server/orchestrator/mesh/node_registry.go:336-357 | Nothing is loaded that was not saved |
| `Persistence.AuthRoundTrip` | server/orchestrator/nodeauth/persistence.go:21-84 | Every trust record comes back under its own key with its times cut to whole seconds and nothing else changed |
| `Persistence.PersistNodes` | server/orchestrator/mesh/node_registry.go:290-306 | The loop writes exactly one entry for every node, in some order |
| `Persistence.LoadNodeEntries` | server/orchestrator/mesh/node_registry.go:336-357 | The loop fills the map entry by entry, skipping addresses that do not parse |
| `Persistence.PersistAuths` | server/orchestrator/nodeauth/persistence.go:25-34 | The loop writes exactly one entry for every record, in some order |
| `Persistence.LoadAuthEntries` | server/orchestrator/nodeauth/persistence.go:61-81 | The loop fills the map entry by entry, skipping addresses and keys that do not parse |
| `Kafka.AccountingHolds` | server/orchestrator/eventStore/kafka.go:200-264 | After any interleaving of failed writes and topic attempts, the total is the sum over topics and counts each failure once, and TopicsReady holds exactly when every topic is ready and the last attempt was answered |
| `Kafka.EnsureEffect` | server/orchestrator/eventStore/kafka.go:200-233 | An attempt moves no failure count, leaves every topic ready exactly when it leaves the store ready, and changes no topic when the request failed as a whole; `Kafka.AttemptOutcome` and `Kafka.AttemptSucceeds` say which topics are refused |
| `Kafka.FailedAreRefused` | server/orchestrator/eventStore/ensure.go:42-48 | The failed topics are exactly the requested ones the broker answered with an error other than already-exists, each with that error |
| `Kafka.AttemptOutcome` | server/orchestrator/eventStore/kafka.go:200-233 | After an answered attempt a requested topic is ready exactly when the broker reported no error for it or that it exists, a refused one carries the broker's error and the time, no other topic changes, and the store is ready exactly when no requested topic was refused |
| `Kafka.AttemptSucceeds` | server/orchestrator/eventStore/kafka.go:200-233 | An attempt succeeds exactly when it was answered and no requested topic refused; unanswered, it changes no topic and leaves the store not ready with that error |
| `Kafka.ErrorsAreJoined` | server/orchestrator/eventStore/ensure.go:51-60 | The error kept after refusals lists the refused topics with the broker's texts, in topic order, separated by semicolons |
| `Kafka.FailureOutcome` | server/orchestrator/eventStore/kafka.go:252-264 | A failed write is counted once for its own topic and once in the total, with its error and time, and changes no other topic |
| `Kafka.CappedExponential` | server/orchestrator/eventStore/kafka.go:180-194 | The wait after k doublings is min(initial*2^k, max) for every k exactly when initial does not exceed max |
| `Kafka.Store.EnsureTopicsLoop` | server/orchestrator/eventStore/kafka.go:179-196 | The loop's waits are the doubled, capped ones in order; it goes on after every refusal, ends done only with topics ready, and gives up only when cancelled after a refusal or during a wait |
| `Kafka.Store.EnsureTopicsOnce` | server/orchestrator/eventStore/kafka.go:200-233 | The update of the stats in place refines the attempt that `Kafka.AttemptOutcome` and `Kafka.AttemptSucceeds` state outright |
| `Kafka.Store.CollectFailed` | server/orchestrator/eventStore/ensure.go:42-48 | The loop over the topics builds the map that `Kafka.FailedAreRefused` describes |
| `Kafka.Store.RecordWriteFailure` | server/orchestrator/eventStore/kafka.go:252-264 | One failure is added to the topic and to the total |
| `Kafka.Store.SetConnected` | server/orchestrator/eventStore/kafka.go:246-250 | Only the connected flag changes |
| `Topology.TopologyIsForest` | server/artist-portal/app/lib/topology.ts:37-79 | With unique IDs and listed reported parents closer to the master, each node has at most one incoming edge, and every climb stays among listed nodes, takes at most hopCount steps and never comes back |
| `Topology.CyclesBlameReports` | server/artist-portal/app/lib/topology.ts:44-50 | Without that condition, every climb that comes back or is too long passes through a node whose reported parent is no closer to the master: the heuristic is never to blame |
| `Topology.ReportedParentsCanCycle` | server/artist-portal/app/lib/topology.ts:44-50 | Two nodes that report each other do form a cycle |
| `Topology.HeuristicParentIsLeast` | server/artist-portal/app/lib/topology.ts:53-61 | A heuristic parent exists exactly when some node is one hop closer; it is least by name among those of the same zone if there are any, else among all |
| `Topology.EdgesAreChoices` | server/artist-portal/app/lib/topology.ts:41-76 | The edges are exactly those that the nodes' parent choices make; `Topology.EdgesOutright` says which choices those are |
| `Topology.EdgesOutright` | server/artist-portal/app/lib/topology.ts:37-79 | With unique IDs, a listed node has an edge exactly when it is one hop from the master, reports a parent, or some listed node is one hop closer; the edge comes from the master, from the reported parent or the master if that is not listed, or from the least name one hop closer, of the same zone if any is; it is connected exactly when both ends are online; there are no others, and none has two |
| `Topology.EdgesDescendExactly` | server/artist-portal/app/lib/topology.ts:41-62 | With unique IDs, every edge starts at the master or at a listed node closer to it than its target exactly when every listed reported parent is closer than the node that reports it |
| `Topology.EdgesDescend` | server/artist-portal/app/lib/topology.ts:41-62 | Under that condition every edge's target is listed, and so is its source unless that is the master |
| `Topology.ComputeEdges` | server/artist-portal/app/lib/topology.ts:37-79 | The loop pushing edges refines the edge list that `Topology.EdgesOutright` states outright |

## Left out

- TopologyIsForest: takes the condition on reported parents in one direction only, because a report that is no closer need not
  close a cycle. `EdgesDescendExactly` has both directions for descending edges, and `CyclesBlameReports` says which nodes a
  cycle must contain.
- AckedIffCarriedOut: says nothing of commands whose token is (0,0) or shared, for which acknowledgements are ambiguous by design;
  `TokenResolvesOnlyIfUnshared` is the exact limit.
- SilenceIsNoticed: takes the spacing of offline checks as a premise, because ticker jitter is outside the model.
- IsSafe: the event broker is not composed into the hub class, whose events are a trace in order of publication.
- AuthRoundTrip: trust status codes outside the three named ones, which only a hand-edited file can hold, are not represented,
  and times are at least a second after the zero time.
- RequestHealthReports, configuring all nodes and approving with a type are steps or combinations of steps of the system
  (broadcast CONFIG_SET, approve then configure) and have no theorem of their own.
- The raw broadcast API and the simulator's reset: they void agreement and correlation by design.
- ParentID after later ID changes: it is resolved only when a route report arrives, so nothing more is claimed.
- Acknowledging a command by its full ID, which nothing calls, and the listings of nodes, zones and pending requests.
- HTTP routing, authentication, JSON, server-sent events, metrics, logging, and the copies of frames sent to Kafka.
- Protobuf encoding, Curve25519, and the firmware's own authentication fields.
- Start and Stop, deadlock freedom and restart of the hub, and the error counting and flushing of its read loop.
- Dual-master link choice and per-link online flags; the JOIN_ACK layout with a secondary master is modelled.
- The zone registry, TX power, parsing of IDs in URL paths, the simulator's own MAC parser and configuration file.
- Files, directories and timers of persistence; only the entry lists are modelled.
- Layout and labels of the portal's graph, and locale collation, for which any total order on names may stand.
