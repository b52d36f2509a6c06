# Verified model of the tailscale-multitail datapath

This project models, in Dafny 4.11, the packet multiplexer of the multitail daemon and the address machinery it
depends on, and proves what its design promises about them. `dafny verify dfyconfig.toml` checks everything.

| module | models |
|---|---|
| `Wrappers`, `Bytes`, `Checksum` | optional values, machine words, IPv4 addresses, the Internet checksum and its incremental update |
| `Rewrite`, `RewriteProofs`, `Reassembly` | in-place address translation of a packet, and of a fragmented datagram |
| `Text`, `Keys` | the string keys of flows, fragments and targets |
| `LazyTable` | the bounded, lazily expired tables and the history they stand for |
| `PacketTun` | the channel-backed packet device |
| `Inventory`, `Sorting`, `Supervisor` | the ordered aggregate view and what the supervisor derives from its profiles |
| `Mux`, `MuxIndex`, `MuxEngine` | the multiplexer as state functions, its indexes, and the engine object that computes them |
| `MuxRuns`, `MuxHistory`, `NatRoundTrip` | whole runs of the datapath |
| `EngineRuns` | that the engine object and its devices carry out those runs |
| `DatagramRuns`, `DeviceRoundTrip`, `Crashes` | fragmented datagrams and round trips as events of runs, and exactly when a run dies |
| `Decisions`, `FragmentsArrive` | exactly when the two loops pass a packet on, with which counters, and that later fragments get through |
| `LockRelease` | an update between a lookup and the table entry that follows it |
| `Scenario`, `FullTable` | a concrete system, with an exchange with its peer and a host that fills the flow table |
| `Allocator`, `LeaseStore` | effective-address allocation and its persistence |
| `DnsMux` | forward and reverse name lookup |
| `Reconcile` | the reconcile arm: leases, mux and DNS server together |
| `Notify` | the coalescing change notification |

How to read it. Objects whose methods change fields are classes (`MuxEngine.Engine`, `PacketTun.Device`,
`Allocator.Allocator`, `LeaseStore.Store`, `DnsMux.Server`, `Supervisor.Profile`); each method's contract equates the
new state with a state function (`Mux.HostStep`, `Mux.ProfileStep`, `Mux.Reconfigure`, `Allocator.LeaseOne`,
`LeaseStore.Effective`, and so on), and the theorems are about those functions and about all runs built from them.
`EngineRuns.Execute` performs any enabled events on the heap and ends in a state that represents the run's.

Conventions. Bytes and words are integers in their range, with shifts and masks written as divisions and
remainders. Times are integer nanoseconds read from a clock that does not run back; where the code reads the clock
twice for one packet there are two readings. SHA-256 is an arbitrary function to 32-bit numbers. A Go map iterated by
`range` is iterated in an arbitrary order. Where `select` may take either of two ready cases, a Boolean says which.
Identifiers are assumed to contain no `/`; validation does not enforce this and the string keys rely on it.

## What the proofs found

- `rewrite` indexes past the buffer on an unfragmented TCP segment of 8 to 17 bytes: the guard asks for 8 bytes and the
  checksum is at offset 16. The model has this as the outcome `Panicked`, with its exact condition in
  `RewriteProofs.PanicsExactlyWhen`. `Crashes.StepCrashesIff` and `Crashes.RunCrashesIff` say exactly which host and profile
  packets kill the process in which states, and `Crashes.CutSegmentKills` is one packet that does.
- A UDP datagram without a checksum that is sent in fragments is given a wrong checksum, because the first-fragment branch
  does not recognise zero: `Reassembly.UdpAcceptedIff` gives the exact condition,
  `Reassembly.AbsentUdpChecksumBreaks` the two fragments of any such datagram, and `Reassembly.AbsentUdpChecksumExample`
  one family of datagrams with its addresses.
- The design drops new flows when the flow table is full. The code also refuses to refresh a flow that is already live:
  `MuxHistory.FlowAnswersFollowHistory` shows that refusal depends on the number of live flows alone, and
  `FullTable.FullTableRefusesLiveFlow` is a run in which 65536 flows are opened and the first is then refused.
- A /0 pool is accepted by configuration and by the allocator, but its size wraps to zero in 32 bits and no key is ever
  leased: `Allocator.WholeSpaceAllocatesNothing`.
- If `StartConfiguredProfiles` fails after listing some profiles it does not notify, so a profile can stay listed and
  unread until its next change: `Notify.FailedStartLosesProfile` is such a run, and `Notify.ReadIffAnnounced` says exactly
  which listed profiles have been read when the system is at rest.
- The pool's last address is leased like any other. `Reserve` would accept the network address
  (`Allocator.NetworkAddressReservable`), but no such row arises from an empty store (`LeaseStore.StoreStaysSound`), because
  no newly probed address is the network, NAT or DNS address (`Allocator.LeaseEffect`).
- The lease rows of departed targets are never deleted and count against the pool (`LeaseStore.EffectiveSucceedsIff`).
- A query for the root name is answered with the address of the first leased target without a name (or with a leading dot),
  and an unnamed target has no reverse entry (`DnsMux.RootQueryAnswer`).

## Model

| member | source | states |
|---|---|---|
| Bytes.AddrNumRoundTrip | internal/ip/ip.go:5-20 | the number of an address weighs its octets from the first, and converts back to the address |
| Bytes.NumAddrRoundTrip | internal/ip/ip.go:5-20 | and the other way round for every 32-bit number |
| Checksum.Sum | internal/mux/mux.go:604-620 | the 32-bit accumulator loop computes the one's complement checksum of any buffer up to 128 KiB, odd lengths padded, without overflow |
| Checksum.WordSumWeighs | internal/mux/mux.go:604-620 | the sum weighs bytes at even positions 256 and at odd positions one, whatever the length |
| Checksum.FoldCarries | internal/mux/mux.go:615-617 | the carry loop ends with the unique word congruent to the sum modulo 0xffff that is zero only for zero |
| Checksum.AdjustChecksum | internal/mux/mux.go:593-602 | the update loop computes equation 3 of RFC 1624 for all words, no step leaving 32 bits |
| Checksum.IncrementalEqualsFull | internal/mux/mux.go:593-620 | the incremental result is congruent to full recomputation for any congruent old checksum, and equal to it when the old one is the computed one and the new sum is not zero |
| Checksum.UpdateRoundTrip | internal/mux/mux.go:593-602 | updating forth and back restores every checksum except 0xffff, which becomes 0 |
| Checksum.FilledFieldVerifies | internal/mux/mux.go:557-588 | storing the checksum of the cleared field, or 0xffff for 0, makes the whole sum to zero at the receiver |
| Rewrite.ReplaceAddresses | internal/mux/mux.go:529-534 | in the buffer: new addresses and the header checksum recomputed over the cleared field |
| Rewrite.RewritePacket | internal/mux/mux.go:523-591 | the in-place code computes Translate, including what it leaves in the buffer on its error returns |
| Rewrite.WellFormedBytes | internal/mux/mux.go:512-521 | on the bytes: a packet is accepted exactly when it is version 4 with at least five header words, all present |
| Rewrite.FragmentBitsOnBytes | internal/mux/mux.go:437-443 | on the bytes: the offset is the low thirteen bits of bytes 6 and 7, the flag the bit above |
| RewriteProofs.TranslationTouchesOnly | internal/mux/mux.go:523-591 | a successful translation sets both addresses, leaves a verifying IPv4 header, and changes no byte outside the addresses, the header checksum and the one transport checksum field |
| RewriteProofs.UnfragmentedVerifies | internal/mux/mux.go:553-590 | after translating an unfragmented packet the header, the ICMP message and the TCP or UDP segment with pseudo header verify, the latter also stated as a sum of address, protocol, length and segment words up to 65535 bytes; a UDP checksum is present |
| RewriteProofs.SegmentSum | internal/mux/mux.go:579-588 | the pseudo header adds exactly both addresses, the protocol and the whole 16-bit length to the sum |
| RewriteProofs.PanicsExactlyWhen | internal/mux/mux.go:566-576 | the index panic happens exactly for unfragmented TCP with 8 to 17 bytes after the header |
| RewriteProofs.RejectsExactlyWhen | internal/mux/mux.go:540-569 | the error returns happen exactly for the transports shorter than each branch's check |
| Crashes.HostPanicsExactlyWhen | internal/mux/mux.go:241-268 | a host packet kills the process if and only if it is admitted and is an unfragmented TCP segment of 8 to 17 bytes |
| Crashes.ProfilePanicsExactlyWhen | internal/mux/mux.go:284-341 | so does a packet from a profile if and only if it is addressed to the profile, has a way to the host and is such a segment |
| Crashes.StepCrashesIff | internal/mux/mux.go:231-347 | no other event does |
| Crashes.RunCrashesIff | internal/mux/mux.go:231-347 | a run ends dead if and only if one of its packets is fatal in the state it meets |
| Crashes.CutSegmentKills | internal/mux/mux.go:566-576 | one packet as the first event of the concrete system is enough, whatever its ports |
| RewriteProofs.TranslateBack | internal/mux/mux.go:523-602 | translating forth and back leaves the packet with canonical checksums and otherwise unchanged, in every branch |
| RewriteProofs.RoundTripIffCanonical | internal/mux/mux.go:523-602 | it restores the packet byte for byte if and only if its checksums were canonical (for a first fragment: not 0xffff) |
| Reassembly.ReassemblyUnique | internal/mux/mux.go:535-551 | fragments, in any order, reassemble to at most one datagram |
| Reassembly.TranslatedFragment | internal/mux/mux.go:535-551 | each translated fragment is a fragment, at the same place, of the datagram with its checksum updated once |
| Reassembly.FragmentwiseTranslationReassembles | internal/mux/mux.go:535-551 | separately translated fragments reassemble to the updated datagram |
| Reassembly.ReassembledVerifiesIff | internal/mux/mux.go:540-551 | the updated datagram verifies with its new pseudo header if and only if the original did with the old one |
| Reassembly.TranslatedFragmentsVerifyIff | internal/mux/mux.go:535-551 | whatever is reassembled from the separately translated fragments verifies under the new addresses if and only if the original datagram did under the old ones |
| Reassembly.IncrementalIsRecomputed | internal/mux/mux.go:540-588 | for a canonical TCP datagram the incremental checksum is the recomputed one; for UDP up to 0 against 0xffff |
| Reassembly.TranslationCommutesWithReassembly | internal/mux/mux.go:535-588 | translating a canonical packet whole gives the payload that its separately translated fragments reassemble to: exactly for TCP, for UDP with a checksum of 0 replaced by 0xffff |
| Reassembly.UdpAcceptedIff | internal/mux/mux.go:540-551 | an acceptable fragmented UDP datagram stays acceptable exactly when it had a checksum, the address sums agree, or its bytes verify anyway |
| Reassembly.AbsentUdpChecksumBreaks | internal/mux/mux.go:540-551 | any datagram of more than eight bytes without checksum, not verifying as it stands, sent in two fragments between addresses of another sum: both fragments are translated and what they reassemble to is refused |
| Reassembly.AbsentUdpChecksumExample | internal/mux/mux.go:540-551 | such datagrams of ten bytes, on any one-byte ports, with their addresses |
| Text.DecimalInjective | internal/mux/mux.go:384-384 | decimal formatting loses nothing |
| Text.DecimalReads | internal/mux/mux.go:384-384 | a decimal text has only digits, no leading zero, and reads as its number |
| Text.DottedInjective | internal/mux/mux.go:384-384 | dotted address formatting loses nothing |
| Text.HexInjective | internal/mux/mux.go:449-449 | hexadecimal formatting of equally long slices loses nothing |
| Keys.FlowKeyFaithful | internal/mux/mux.go:349-385 | two flow keys are equal exactly when profile, protocol, remote address and both ports are |
| Keys.FlowKeyPresentIff | internal/mux/mux.go:349-385 | a flow key is present exactly for well-formed TCP and UDP packets with both ports and ICMP messages with an identifier |
| Keys.FlowKeyOnBytes | internal/mux/mux.go:349-385 | two present keys are equal exactly when profile, protocol byte, remote address bytes and the port bytes (for ICMP the identifier) agree |
| Keys.FragmentKeyFaithful | internal/mux/mux.go:445-450 | two fragment keys are equal exactly when profile, protocol, addresses and identification are |
| Keys.FragmentKeyOnBytes | internal/mux/mux.go:445-450 | two fragment keys are equal exactly when profiles and bytes 4, 5, 9 and 12 to 19 are |
| Keys.ReplySharesFlow | internal/mux/mux.go:349-385 | a packet and its answer have the same flow key, present exactly for TCP, UDP and ICMP |
| Keys.FlowPrefix | internal/mux/mux.go:149-149 | the prefix test on a flow key identifies its profile |
| Keys.FragmentPrefix | internal/mux/mux.go:161-161 | the prefix test on a fragment key identifies its profile |
| LazyTable.StepRefines | internal/mux/mux.go:397-487 | each table operation answers as the history of acceptances does and keeps the table a refinement of it |
| LazyTable.TableRefinesHistory | internal/mux/mux.go:397-487 | from empty and over every run under a non-decreasing clock, all answers are those of the history and the capacity is never exceeded |
| LazyTable.AcceptedStaysLive | internal/mux/mux.go:397-435 | no operation on other keys, and no pressure for space, removes or changes a table entry within its timeout |
| PacketTun.SendKeepsFifo | internal/packettun/channel.go:59-69 | a send keeps the queue first in first out within its bound; refusals happen only when full or closed |
| PacketTun.PopKeepsFifo | internal/packettun/channel.go:72-110 | a receive hands out the oldest accepted packet not yet taken |
| PacketTun.Device.TryInject | internal/packettun/channel.go:59-69 | a copy of the packet is queued, or the device reports closed or full without blocking |
| PacketTun.Device.Read | internal/packettun/channel.go:92-110 | the oldest packet is copied behind the offset of a first buffer that has room for it, and nothing else in any buffer of the batch changes; otherwise the packet is lost and no buffer changes |
| PacketTun.Device.Send | internal/packettun/channel.go:81-89 | one buffer is queued by copy or the device reports closed |
| PacketTun.Device.Receive | internal/packettun/channel.go:72-79 | the oldest packet is handed over as a buffer the device no longer holds |
| PacketTun.Device.Close | internal/packettun/channel.go:127-133 | closing leaves queued packets in place |
| PacketTun.ReuseBuffer | internal/packettun/channel.go:27-27 | whatever TryInject answered, changing the sender's buffer afterwards changes no queued packet |
| Inventory.KeyFaithful | internal/inventory/inventory.go:40-42 | two target keys are equal exactly when profile, kind, identifier and address are |
| Inventory.Build | internal/inventory/inventory.go:44-74 | the loops produce a sorted arrangement of all stamped targets and the indexes by canonical address and by name |
| Inventory.SnapshotMembers | internal/inventory/inventory.go:44-57 | the snapshot has as many entries as the profiles have targets, and they are these targets, stamped with that profile's identifier, name and order and otherwise unchanged; each index lists exactly those with its address or name |
| Inventory.SnapshotOrder | internal/inventory/inventory.go:59-72 | entries are ordered by profile, then nodes before services, then identifier (prefix or smaller first difference first), then address |
| Sorting.StringLeIff | internal/inventory/inventory.go:66-68 | a string precedes another exactly when it is a prefix of it or smaller where they first differ |
| Inventory.ResolvePicksLowest | internal/inventory/inventory.go:77-84 | ResolveRaw finds a target exactly when one has the address, and one of lowest profile order |
| Inventory.ResolveTakesFirst | internal/inventory/inventory.go:77-84 | among those of lowest order it is the first listed |
| Supervisor.Profile.SetStatusAndTargets | internal/runtime/supervisor.go:189-229 | a running profile gets one target per IPv4 address of each peer and service, others none |
| Supervisor.TargetsMembers | internal/runtime/supervisor.go:203-221 | the targets of a running profile are exactly one per peer and IPv4 address, with the peer's kind, identifier, name and state |
| Supervisor.DegradedDisappears | internal/runtime/supervisor.go:290-295 | a degraded profile is named by no inventory target, is not served, and has no binding in any of the mux's three indexes |
| Supervisor.Inventory | internal/runtime/supervisor.go:415-435 | the snapshot is a Build of the profiles with their positions as orders |
| Supervisor.DatapathProfiles | internal/runtime/supervisor.go:446-467 | the running profiles with their first IPv4 address, in order |
| Supervisor.ServedMembers | internal/runtime/supervisor.go:446-467 | what is served is exactly each running profile with an IPv4 address, with its own device and the first such address |
| Supervisor.MuxFollowsInventory | internal/runtime/supervisor.go:415-467 | end to end, the mux's raw index and ResolveRaw agree on domain and profile for every address |
| MuxIndex.BuildIndexSound | internal/mux/mux.go:98-115 | every index entry is an eligible target's binding under that target's key, and every eligible target has entries |
| MuxIndex.RawIffNotEffective | internal/mux/mux.go:247-253 | a looked-up destination is treated as raw exactly when it is no effective address |
| MuxIndex.EffectiveLookup | internal/mux/mux.go:103-115 | with injective leases an effective address leads to its own target's profile, device and canonical address |
| MuxIndex.InboundLookup | internal/mux/mux.go:103-115 | with canonical addresses unique per profile the inbound index gives a target's own lease |
| MuxIndex.RawIndexAgreesIff | internal/mux/mux.go:103-115 | the raw index selects ResolveRaw's profile exactly when that profile has an eligible target with the address |
| MuxIndex.RawIndexAgrees | internal/inventory/inventory.go:77-84 | with all targets eligible the two agree on domain and profile despite different tie-breaks |
| MuxEngine.Engine.constructor | internal/mux/mux.go:82-118 | the engine starts in the state NewState describes |
| MuxEngine.Engine.Update | internal/mux/mux.go:120-138 | the new state is Reconfigure of the old one |
| MuxEngine.Engine.PurgeProfiles | internal/mux/mux.go:140-173 | exactly the entries with a removed profile's prefix go and the counters grow by their number |
| MuxEngine.Engine.EnsureProfileLoops | internal/mux/mux.go:185-200 | each device gets one loop, for the profile it was first seen with |
| Decisions.FirstProfileOwnsLoop | internal/mux/mux.go:185-200 | a device with a loop keeps it, another gets one for the first profile listed with it |
| MuxEngine.Engine.AddFlow | internal/mux/mux.go:397-418 | the loop expires idle entries and the result is the table's Add |
| MuxEngine.Engine.TouchFlow | internal/mux/mux.go:420-435 | the result is the table's Touch, storing the packet's protocol |
| MuxEngine.Engine.PutFragment | internal/mux/mux.go:452-473 | the result is the table's Add with the fragment limits |
| MuxEngine.Engine.GetFragment | internal/mux/mux.go:475-487 | the result is the table's Touch, keeping the stored state |
| MuxEngine.Engine.AdmitPacket | internal/mux/mux.go:240-263 | the head of hostLoop computes Admit, whose answer `Decisions.HostDeliversIff` determines, and selects an existing device |
| Decisions.HostDeliversIff | internal/mux/mux.go:241-268 | a host packet is passed on exactly when it comes from the NAT address, has a route, is no new raw flow or finds room for its key, and is long enough; it goes to the binding found, translated to its self and canonical addresses |
| Decisions.LookupPrefersEffective | internal/mux/mux.go:247-253 | the effective index is asked first, then the raw one |
| Decisions.HostCounts | internal/mux/mux.go:231-275 | every host packet moves exactly the packet counter, the drop counter if not passed on, and the limit counter if a flow found no room |
| MuxEngine.Engine.HostRound | internal/mux/mux.go:231-275 | a round of hostLoop computes HostStep (see `Decisions.HostDeliversIff`), changes only the selected device's queue, counts a refused hand-over as a drop, and leaves its buffer free for the next round |
| MuxEngine.Engine.ProfileRound | internal/mux/mux.go:277-347 | a round of profileLoop computes ProfileStep and leaves the translated packet in the buffer |
| Decisions.ProfileWritesIff | internal/mux/mux.go:284-341 | a packet from a profile is written exactly when addressed to it, with a way to the host by a fresh fragment entry, a fresh flow (five minutes, one minute, thirty seconds) or the inbound index, and long enough; it leaves from that source for the NAT address |
| Decisions.ProfileCounts | internal/mux/mux.go:277-347 | every packet from a profile is counted, and a first fragment is a limit drop exactly when it has a source and 8192 entries are unexpired |
| EngineRuns.HostRound | internal/mux/mux.go:231-275 | from a represented state the round ends in the state the run's host event gives, queues included, and its buffer can be used again |
| EngineRuns.ProfileRound | internal/mux/mux.go:277-347 | the same for a packet from a profile, and what is written to the host is what the run records |
| EngineRuns.Execute | internal/mux/mux.go:120-347 | any enabled events carried out on the engine and its devices end in a state representing the run's, dead exactly if the run has crashed |
| EngineRuns.Boot | internal/mux/mux.go:82-118 | new devices and a new engine represent the start of a run |
| MuxRuns.StepKeepsInv | internal/mux/mux.go:120-347 | every event keeps the invariant of tables, queues, counters and deliveries |
| MuxRuns.ProfilesStayIsolated | internal/mux/mux.go:231-347 | over every run, injected packets come from the NAT address and carry their own profile's self address and one of its targets; written ones were addressed to that profile and leave, as translations of themselves, for the NAT address from an allowed source; flows are opened only to the profile's canonical addresses |
| MuxRuns.SourcesAreSolicited | internal/mux/mux.go:294-337 | over every run, each packet written to the host, later fragments included, carries its target's lease, or its own source to which the host had sent before while it was canonical for the profile; unknown sources are dropped |
| MuxRuns.HostPacketsConserved | internal/mux/mux.go:231-275 | host packets read equal drops plus, over all devices, packets queued and taken; each queue is first in first out |
| MuxRuns.OnlyServedProfilesHaveState | internal/mux/mux.go:120-173 | in every reachable state each flow and fragment key belongs to a served profile and both bounds hold |
| MuxRuns.UpdatePurgesExactly | internal/mux/mux.go:120-173 | a reconfiguration deletes exactly the withdrawn profiles' entries and counts exactly those |
| LockRelease.LateEntryStaleIff | internal/mux/mux.go:247-260 | an Update between lookup and flow entry leaves a flow of an unserved profile if and only if it withdrew the packet's profile, the packet has a key and fewer than 65536 unexpired flows are left |
| LockRelease.LateFragmentStaleIff | internal/mux/mux.go:284-331 | the same for the fragment entry of profileLoop, with 8192 |
| LockRelease.StaleFlowIsInert | internal/mux/mux.go:140-173 | such a flow lets nothing through while its profile stays withdrawn, and no update removes it |
| MuxRuns.KeptFirstSource | internal/mux/mux.go:304-337 | a first fragment that is kept and written leaves with the source its later fragments will get |
| MuxRuns.WrittenFirstIsKept | internal/mux/mux.go:304-337 | a first fragment that is written is kept unless 8192 unexpired entries are in the table |
| MuxRuns.FragmentsStayTogether | internal/mux/mux.go:294-337 | over every run, a later fragment is written with the same source and destination as the first fragment last kept for its datagram, across reconfigurations |
| FragmentsArrive.LaterFragmentArrives | internal/mux/mux.go:294-337 | over every run that keeps the profile served: a later fragment agreeing with a kept first fragment on identification, protocol and address bytes, within thirty seconds and with no newer first fragment, is written to the host from the first one's source |
| DatagramRuns.WrittenDatagramVerifiesIff | internal/mux/mux.go:294-337 | over every run, what the host reassembles from the written fragments of a profile's TCP or UDP datagram verifies if and only if the profile's datagram did |
| MuxHistory.FlowAnswersFollowHistory | internal/mux/mux.go:387-435 | over every engine run touchFlow succeeds exactly within five minutes for TCP, one for UDP and else thirty seconds of the key's last acceptance, and addFlow refuses exactly at 65536 live flows |
| MuxHistory.FragmentAnswersFollowHistory | internal/mux/mux.go:452-487 | the same for fragments with 30 seconds and 8192 entries |
| FullTable.FullTableRefusesLiveFlow | internal/mux/mux.go:397-418 | a run of the concrete system opens 65536 flows at one instant; the first is live, and the host's next packet on it is dropped |
| NatRoundTrip.KeptThroughRun | internal/mux/mux.go:397-435 | a recorded flow survives any run that keeps its profile served, until its timeout |
| NatRoundTrip.RawRoundTrip | internal/mux/mux.go:241-325 | an answer within the timeout to a packet sent to a raw canonical address is written, unless too short to translate, from that address to the NAT address, whatever happened meanwhile |
| Scenario.ScenarioStart | internal/mux/mux.go:82-118 | a mux with one profile and one peer starts in the state from which these concrete results go |
| Scenario.AnswerReturns | internal/mux/mux.go:231-347 | the conditions of the round trip can be met: in the concrete system a TCP segment on any ports is answered, and the answer is written to the host from the peer's address |
| NatRoundTrip.EffectiveRoundTrip | internal/mux/mux.go:241-341 | an answer to a packet sent to an effective address is written, unless too short, from that effective address if and only if no raw flow is live under its key or the two addresses are equal |
| DeviceRoundTrip.StartMatches | internal/mux/mux.go:185-200 | a start in a configuration of the assigned devices runs each loop for its owner |
| DeviceRoundTrip.RunKeepsLoops | internal/mux/mux.go:185-200 | over every run in which devices keep their profiles, each device's loop runs for its own profile and never stops |
| DeviceRoundTrip.RawAnswerIsWritten | internal/mux/mux.go:231-347 | then an answer read from the very device a raw packet was delivered to is written to the host from the raw address, as an event of the run |
| DeviceRoundTrip.EffectiveAnswerIsWritten | internal/mux/mux.go:231-347 | the same for a packet sent to an effective address |
| NatRoundTrip.EffectiveDelivery | internal/mux/mux.go:241-275 | a packet to a leased address goes to exactly that target and records no flow |
| NatRoundTrip.InboundRoundTrip | internal/mux/mux.go:241-341 | the host's reply to an inbound packet reaches the same profile and canonical peer |
| Allocator.ProbeExact | internal/allocator/allocator.go:68-80 | for /1 to /30 no 32-bit step of a probe wraps and it stays between base+3 and the pool's end |
| Allocator.BaseIsNetwork | internal/allocator/allocator.go:68-73 | the pool is the aligned block of 2^(32-bits) addresses around the configured one |
| Allocator.ProbesEverything | internal/allocator/allocator.go:79-81 | every address from base+3 on is probed |
| Allocator.LeaseFailsIffFull | internal/allocator/allocator.go:63-90 | a new key fails exactly when all those addresses are used, and always for /0 |
| Allocator.LeaseIsFirstFromSlot | internal/allocator/allocator.go:75-87 | otherwise it gets the first free address in circular order from its hash slot |
| Allocator.LeaseEffect | internal/allocator/allocator.go:63-90 | a lease keeps all earlier ones and takes one free address, never the network, NAT or DNS address |
| Allocator.NetworkAddressReservable | internal/allocator/allocator.go:32-45 | Reserve takes the network address exactly when nobody else has it |
| Allocator.ReserveRefusesExactly | internal/allocator/allocator.go:32-45 | Reserve refuses exactly the NAT and DNS addresses, those outside the pool and those another key uses; otherwise it records both |
| Allocator.ReserveKeepsConsistent | internal/allocator/allocator.go:32-45 | reservations keep every lease recorded as used by its own key, so no two keys share an address |
| Allocator.CapacityExact | internal/allocator/allocator.go:47-90 | allocation succeeds exactly when the distinct unleased keys are at most the free addresses |
| Allocator.WholeSpaceAllocatesNothing | internal/allocator/allocator.go:68-73 | for /0 allocation succeeds only when nothing new is asked for |
| Allocator.LeaseAllEffect | internal/allocator/allocator.go:47-90 | an allocation keeps leases and injectivity, and on success every key has one |
| Allocator.AllocationDependsOnKeySet | internal/allocator/allocator.go:47-61 | reordering or duplicating the keys changes neither the leases nor the verdict |
| Allocator.Allocator.constructor | internal/allocator/allocator.go:24-30 | a new allocator has no leases and no used addresses |
| Allocator.Allocator.Reserve | internal/allocator/allocator.go:32-45 | the method computes Reserving and changes nothing on error |
| Allocator.Allocator.LeaseKey | internal/allocator/allocator.go:63-90 | the probing loop computes LeaseOne |
| Allocator.Allocator.Allocate | internal/allocator/allocator.go:47-61 | the loop over the sorted keys computes LeaseAll and lists each key with its lease |
| LeaseStore.ReplaySucceeds | internal/runtime/supervisor.go:602-609 | replaying sound persisted leases never fails, in any order, and restores them exactly |
| LeaseStore.EffectiveKeeps | internal/runtime/supervisor.go:590-630 | a call stopped after any number of writes keeps the table sound and every row; a completed one returns an injective lease for exactly the requested keys, all persisted |
| LeaseStore.EffectiveSucceedsIff | internal/runtime/supervisor.go:590-630 | a call succeeds exactly when all rows and the requested keys together fit the pool |
| LeaseStore.StepKeepsDb | internal/state/store.go:54-99 | a restart or a call keeps the table sound, and keeps its rows unless the CIDR changes |
| LeaseStore.RestartRecords | internal/state/store.go:54-75 | a restart records its CIDR if it completes, and keeps the rows exactly if none or the same was recorded |
| LeaseStore.ReplayNeverFails | internal/runtime/supervisor.go:597-609 | from an empty store, after any sequence of interrupted restarts and calls, leases are injective and inside the recorded CIDR, and replay succeeds |
| LeaseStore.LeasesAreStable | internal/state/store.go:54-75 | a target keeps its address until a restart with a different CIDR |
| LeaseStore.StableAfterRestart | internal/state/store.go:54-75 | from any sound store, after a completed restart and any events whose restarts use the same CIDR, every row present in between is still there unchanged |
| LeaseStore.Store.Open | internal/state/store.go:37-75 | opening records the wanted CIDR, reports a change and deletes the leases exactly if another was recorded |
| LeaseStore.PutAllEntries | internal/runtime/supervisor.go:618-628 | the loop of writes leaves exactly the old rows and the written ones, each written key with its allocated lease |
| LeaseStore.InterruptedWritesPrefix | internal/runtime/supervisor.go:618-628 | a call stopped after n writes leaves the old rows and those of the first n keys, with the addresses the completed call returns |
| LeaseStore.EffectiveLeases | internal/runtime/supervisor.go:590-630 | the loops over store and allocator compute Effective |
| Reconcile.LeasesServeInventory | cmd/tailscale-multitaild/main.go:332-339 | the leases a completed call returns are injective, cover exactly the inventory and lie above the reserved addresses |
| Reconcile.ReconciledDelivery | cmd/tailscale-multitaild/main.go:332-359 | after the arm has installed them, a host packet to any target's lease goes to exactly that target |
| Reconcile.ReconciledNames | cmd/tailscale-multitaild/main.go:332-363 | and raw addresses, DNS answers and rewritten records all lead to the targets they stand for |
| DnsMux.ReverseNameInjective | internal/dnsmux/server.go:204-207 | distinct addresses have distinct normalised reverse names |
| DnsMux.Server.Update | internal/dnsmux/server.go:28-65 | the reverse index holds the normalised names of the leased named targets |
| DnsMux.Server.Answer | internal/dnsmux/server.go:176-202 | the loop finds the first matching leased target |
| DnsMux.LocalAIsFirst | internal/dnsmux/server.go:176-202 | the answering target is the first in order that matches and is leased, and there is none only if no target is |
| DnsMux.MatchesExactly | internal/dnsmux/server.go:176-186 | a query matches a target exactly when the names have the same letters in either case, with or without the trailing dot, or when it has no dot and is the first label |
| DnsMux.Server.Ptr | internal/dnsmux/server.go:204-226 | an answer is the name of an address whose reverse name was asked for, and there is none only if no address matches |
| DnsMux.ReverseQuery | internal/dnsmux/server.go:204-207 | the query for d.c.b.a.in-addr.arpa. is answered with the name of address a.b.c.d, and with nothing if it has none |
| DnsMux.Server.RewriteA | internal/dnsmux/server.go:261-272 | the loop leaves the lease of the last target with the record's canonical address |
| DnsMux.RewriteTakesLast | internal/dnsmux/server.go:261-272 | a record becomes the lease of the last leased target with its address, and stays as it is without one |
| DnsMux.ReverseOfAnswer | internal/dnsmux/server.go:176-226 | the reverse lookup of an answer gives the answering target's name, in whatever order the map is searched |
| DnsMux.ForwardReverseInverse | internal/dnsmux/server.go:176-226 | it returns the query name exactly when the target was matched in full, and always for names of several labels |
| DnsMux.AnswerReachesTarget | internal/dnsmux/server.go:176-202 | an answered address leads through the mux to the answering target |
| DnsMux.RewrittenReachesCanonical | internal/dnsmux/server.go:256-276 | a rewritten record leads through the mux to a target with the rewritten canonical address |
| DnsMux.RootQueryAnswer | internal/dnsmux/server.go:176-226 | the root name is answered by the first leased target whose name is empty or starts with a dot, and an empty one has no reverse entry |
| Notify.StepKeepsInv | internal/runtime/supervisor.go:306-311 | every step of writers and consumer keeps a stale profile on its way to being read |
| Notify.RunWrites | internal/runtime/supervisor.go:226-233 | over every run a profile's targets are those of its last write, and it is listed exactly if listed at the start or by some action |
| Notify.NoUpdateLost | internal/runtime/supervisor.go:226-233 | if what was last read of a profile is not what the actions last wrote, then there is a token, a writer about to notify, or a consumer about to read |
| Notify.QuiescentIsCurrent | cmd/tailscale-multitaild/main.go:324-366 | at rest what was read of a profile is what was last written, and unread ones were listed by a failed call with no notification since |
| Notify.ReadIffAnnounced | cmd/tailscale-multitaild/main.go:324-366 | at rest a listed profile has been read, and then as last written, if and only if it was listed from the start, with a token or read pending, or before some notification |
| Notify.ViewIsExactIff | cmd/tailscale-multitaild/main.go:324-366 | the consumer's view at rest is the last written targets of the listed profiles if and only if that holds of each of them |
| Notify.QuiescentViewIsExact | cmd/tailscale-multitaild/main.go:324-366 | without such failures the consumer's view at rest is exactly the last written targets of exactly the listed profiles |
| Notify.RestIsReachable | cmd/tailscale-multitaild/main.go:324-366 | from every reachable state the system can come to rest without new writes, so the statements about rest are not empty |
| Notify.FailedStartLosesProfile | internal/runtime/supervisor.go:371-399 | an interleaving with a failed call comes to rest with a listed profile unread |

## Left out

- tsnet, LocalAPI, login, logout and watch backoff: foreign calls; only "targets replaced, then notify" is kept.
- Logout's final status assignment: under a concurrent refresh it can leave a profile with targets and not running, which
  `Supervisor.MuxFollowsInventory` excludes and `MuxIndex.RawIndexAgreesIff` covers.
- Netlink, TUN and D-Bus plumbing, the control socket and the command-line tools: the host side is a sequence of packets.
- YAML parsing and validation: unique profile identifiers and the prefix-length bound are assumptions.
- SQLite mechanics and corrupt-file recovery: the store is a map with a CIDR tag, and addresses are kept as addresses, not text.
- DNS wire format, EDNS, TTLs, upstream forwarding, `profileFor` and `profileForPTR`; lower-casing is for ASCII letters.
- Logging, rate-limited warnings, tracing and the 64-bit wrap-around of counters.
- Concurrency inside the mux: one host packet, one profile packet and one Update are atomic steps of a run. The code releases
  its locks between a lookup and the flow or fragment entry that follows; what an Update in between leaves behind is in
  `LockRelease`, outside the run theorems.
- The reconcile arm reads the supervisor three times (inventory, the inventory inside `EffectiveLeases`, profiles);
  `Reconcile` takes them as one snapshot. A change in between is followed by a token, as `Notify` shows.
- `Collisions`, and the batch loop of the device's `Write`, which repeats `Send`.
- `EffectiveLeases` is also called from the status handler (cmd/tailscale-multitaild/main.go:231); calls are serialised here.
- An `EffectiveLeases` error in the reconcile arm leaves the mux and the DNS server unchanged until the next token; the
  notification protocol is about what the consumer read, not about what it could then install.
- Supervisor.Profile.SetStatusAndTargets: the descriptive status fields are not kept, and the change callback is a separate
  step (`Notify.Action.Post`).
- DnsMux.Server.Update: the suffix index for upstream forwarding is not kept.
- DnsMux.Server.RewriteA: the record's TTL, which the code lowers to the server's, is not modelled.
- The engine's devices are heap objects in `MuxEngine` and queue values in `MuxRuns`; a device is named by a number.
- Checksum.Sum: stated for buffers up to 128 KiB, because the 32-bit accumulator may wrap beyond and packets are at most 64 KiB.
- Rewrite.RewritePacket: packet length is taken from the buffer, as the code does, not from the IPv4 total-length field.
