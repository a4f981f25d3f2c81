# Network monitor core: a verified model

This project models the detection core of the network monitor in Dafny and proves what it is for. Frames are decoded,
counted, aggregated into flows and shown to detection rules; alerts go through a bounded queue to pollers; capture
files are read by two independent readers, one in Rust and one in C; and batches of flows are sent over an analytics
link that comes and goes.

Code that changes state is modelled as classes and methods with the same fields, loops and branches, each proved against
a specification function. What the program promises is then proved about those functions for all inputs and all runs.
The two concurrent parts are step systems, proved safe in every interleaving.

| part of the program | modules |
|---|---|
| sliding windows, source cache, rules | `Window`, `Lru`, `RuleSpec` (specification), `RuleMeaning` (in terms of packets), `Rules` (as it runs) |
| packet and DNS parsers | `PacketTypes`, `Layers`, `DnsParser`, `Parser`; about them `WireFormats`, `Transparency`, `PacketFormats` (whole packets), `ParseErrors` |
| frame encoders and traffic generator | `Names`, `Synth`, `Generator`; with the parsers `RoundTrip`; with the rules `GeneratedPackets`, `BuiltinRules`, `QuietTraffic`, `Injections` |
| flow table | `FlowSpec` (specification), `FlowMeaning` (in terms of packets), `FlowTables` (as it runs) |
| engine | `EngineSpec` (specification), `Engines` (as it runs); over runs `Staleness`, `Sweeps`, `Detection`, `Demonstration` |
| capture files | `PcapSpec` (what a file contains), `PcapFiles` (Rust), `PcapReplay` (C and agreement), `Captures` (to alerts) |
| alert queue | `AlertQueue` (step system), `SharedCore` (one thread's view) |
| analytics link | `LinkSteps` (step system), `LinkOrder` (what the peer gets), `LinkEnds` (lost streams and shutdown) |

`Ints` and `Wrappers` hold integer widths and result types. `dafny verify dfyconfig.toml` checks everything.

## Main results

- **The rules are exact.** In every packet run the bounded, incremental state of a rule alerts at a packet exactly when
  the rule watches it, enough of the source's packets count, and no earlier alert of the source is still cooling down;
  and it reports that count. Which packets a rule of each kind watches, and which count, is said of packets alone
  (`AlertMeans`, for packets in order `InOrderAlertMeans`; `WatchedIff`, `HistoryIsOwn`). That holds while the source
  stays tracked among 10,000 (`TrackedSourceIff`); otherwise the condition is about the source's events since it last
  entered the cache (`AlertsSinceEntry`, `EntryIsWholeIff`). Timestamps need not be in order: the windows are exact if
  and only if they are settled (`ExactIffSettled`), which order implies (`MonotoneIsSettled`). An engine run raises,
  rule by rule and packet by packet, what the rules call for (`EngineIsExact`, `InOrderEngineIsExact`).
- **The demonstration works end to end**, for every scenario, seed and length: generated frames go through an engine
  with all built-in rules (`Demonstrate`). A port scan is first reported with packet 396, only for 10.0.0.66, and then
  with the first probe after each cooldown, every 15.000 s to 15.008 s until the run ends. A tunnel whose random labels
  have high entropy is reported likewise, from packet 76 on and only for 10.0.0.77. Everyday traffic and floods raise
  none but packet-rate alerts.
- **The parser accepts exactly what the formats describe.** Over every link type, a frame decodes to a packet exactly
  when it spells that packet (`PacketIff`): tags, addresses, hop limit, fragment fields, at most seven IPv6 extension
  headers, ports, flags, and DNS messages, queries and responses alike (`DnsIff`), with compressed names of at most 16
  pointers and 253 characters (`ReadNameIff`). Tags and padding are transparent, every encoder is inverted, and what is
  malformed stays so however much more had been captured (`MalformedIsFinal`).
- **Flows are conserved and exact** over every run (`FlowsAreConserved`, `LiveFlowIsExact`, `EngineConservesBytes`). A
  flow leaves the table only by a counted eviction, or in a sweep that is due when its last packet is the idle timeout
  or more ago (`FlowsLeaveForAReason`, `SweepsOncePerSecond`); live flows are as fresh as late frames allow
  (`LiveFlowsAreRecent`); and the heap-based top list is the one sorted list (`TopByBytes`,
  `TopIsUnique`).
- **Both capture readers agree on every byte string** (`ReplayBoth`), which files open (`OpenIff`) and what times their
  records have (`TimeReturns`) is said in octets and nanoseconds, cut files read as their whole records
  (`CutFileReads`), and both paths from a capture file to alerts detect the same (`SameDetections`).
- **The concurrent parts lose nothing unaccounted for** in any interleaving (`AlertsAreAccountedFor`,
  `QueueIsCommittedRest`, `DropsAreLate`, `BatchesAreConserved`, `LostStreamsCostLittle`). The link's peer gets batches in
  the order in which they were accepted, and none twice (`PeerGetsInOrder`). Which steps of the link lose a
  batch silently is said exactly (`ForgetsIff`, `VanishesIff`), waits double since the last connect (`BackoffDoubles`),
  and a shutdown is stuck exactly while the peer neither reads nor breaks a full stream (`ShutdownIsStuckIff`,
  `ShutdownCompletes`).

## Where code and documentation differ

The model follows the code.

- The repository's `README.md` (line 34) says that batches are "dropped, never queued, when the link is down". An offer reads the state first and
  queues later, so a batch can be queued while the link is down and even be sent once it is up again. `QueuesWhileDownIff`
  says exactly when, `QueuedWhileDown` and `SentAfterOutage` give runs.
- The `sent` counter of the link counts batches handed to the stream's buffer. Up to eight of them vanish with a lost
  stream, and one more in hand that no counter shows (`LostStreamsCostLittle`). A step forgets a batch exactly if it
  forwards it into a stream that was broken after it began (`ForgetsIff`; `ForgottenRun` accepts a batch and loses it with
  all counters at zero), and makes counted ones vanish exactly if it ends a stream whose buffer holds some (`VanishesIff`;
  `VanishedRun` counts a batch as sent that nobody gets). Batches that the transport had already pulled from the buffer
  can be lost as well, which nothing in the link can tell.
- Windows evict from their oldest end only, so an event that comes late can hide behind a newer one, outlive the window
  and be counted (`OutOfOrderOvercounts`). `ExactIffSettled` says exactly for which timestamps windows are exact,
  `AddIsFreshIff` when a single step leaves nothing stale.
- The flow table is ordered by touch but expired as if ordered by age: a late packet's flow can outlive its timeout.
  `ExpireIsCompleteIff` says exactly when expiry is complete, `LateFlowSurvives` gives frames after which it is not,
  `LiveFlowsAreRecent` bounds the damage, and `InOrderSweepsAreComplete` shows that frames in order do none.
- The DNS encoder accepts labels up to 255 bytes (its message speaks of 64). Labels of 64 bytes and more, and names over
  253, do not come back: `DnsQueryRoundTripIff`.
- The capture writer accepts records up to 4 GiB; both readers refuse more than 262,144 bytes: `FileRoundTripIff`.
- The C replay loop checks for read errors only after its loop, where none can have happened: a failing read is
  always reported as a truncated record (`ReplayLoop`).
- `MAX_EXTENSION_HEADERS` is 8, but the eighth header exhausts the loop: seven are accepted (`ChainsAreTransparent`).

## Model

| member | source | states |
|---|---|---|
| Window.RunIsBoundedSuffix | core-rs/core/src/rules/window.rs:19-43 | in any timestamp order a window is a suffix of the added events, of at most 65,536 |
| Window.ExactIffSettled | core-rs/core/src/rules/window.rs:19-33 | after every event of a history the window is exactly the newest events that are not older than it, capped, exactly if the timestamps are settled: no event that counts has been stale before, and none after it is |
| Window.MonotoneIsSettled | core-rs/core/src/rules/window.rs:29-33 | timestamps that never decrease are settled, also when the cap shows |
| Window.AddIsFreshIff | core-rs/core/src/rules/window.rs:19-33 | one step leaves no stale event exactly if no held event that is stale stands behind one that is not |
| Window.RunIsRecent | core-rs/core/src/rules/window.rs:19-33 | with settled timestamps the window is exactly the newest events that are not older than it, capped |
| Window.RunMeasuresRecent | core-rs/core/src/rules/window.rs:19-27 | the reported counts are the size and the distinct keys of the declarative closed window |
| Window.UncappedWindow | core-rs/core/src/rules/window.rs:4-33 | in order, while at most 65,536 events lie in the closed window, the declarative window is all of them |
| Window.OutOfOrderOvercounts | core-rs/core/src/rules/window.rs:29-33 | three events out of order, not settled, of which the window counts one that is too old |
| Window.SettledOutOfOrder | core-rs/core/src/rules/window.rs:29-33 | three events out of order whose timestamps are settled all the same |
| Window.IndexSize | core-rs/core/src/rules/window.rs:24-43 | the count index, being the multiset of deque keys, has one entry per distinct key and none that is zero |
| Window.DistinctWindow.Add | core-rs/core/src/rules/window.rs:19-27 | evicts, caps and appends as specified, keeps the index exact, returns the number of distinct keys held |
| Window.DistinctWindow.EvictBefore | core-rs/core/src/rules/window.rs:29-33 | drops exactly the leading events older than the cutoff, keeping the index exact |
| Window.DistinctWindow.PopOldest | core-rs/core/src/rules/window.rs:35-43 | removes the oldest event, if any, keeping the index exact |
| Window.CountWindow.Add | core-rs/core/src/rules/window.rs:55-65 | evicts, caps and appends as specified, returns the number of events held |
| Window.AddTimeIsAdd | core-rs/core/src/rules/window.rs:46-66 | a count window is an event window whose events share one key |
| Lru.TouchedIsMostRecent | core-rs/core/src/rules/engine.rs:78-81 | a cache that promotes on use and evicts its least recent key holds exactly the most recently used keys, in recency order |
| Lru.TrackedIff | core-rs/core/src/rules/engine.rs:61-88 | a key is cached exactly if fewer than `capacity` distinct other keys were used since its last use |
| Lru.RecencyRanks | core-rs/core/src/rules/engine.rs:61-88 | a key's distance from the newest end of the recency order counts the distinct keys used since |
| Lru.LookupPut | core-rs/core/src/flow.rs:86-108 | what is put into the cache is what is found there |
| Lru.LookupPutOther | core-rs/core/src/flow.rs:86-108 | a put changes nothing for any other key that is not evicted by it |
| RuleSpec.SourceIsExact | core-rs/core/src/rules/engine.rs:44-59 | with settled timestamps one source's state alerts exactly when the window reaches the threshold and every earlier alert is one cooldown old |
| RuleSpec.CooldownMeaning | core-rs/core/src/rules/engine.rs:50-57 | in any timestamp order, remembering only the last alert is equivalent to comparing with all earlier ones |
| RuleSpec.TrackedSourcesOfRun | core-rs/core/src/rules/engine.rs:78-81 | after any packet run the tracked sources are the last 10,000 of the event-producing sources in recency order |
| RuleSpec.TrackedSources | core-rs/core/src/rules/engine.rs:78-81 | over events, the tracked sources are the keys of a least-recently-used cache fed with their sources |
| RuleSpec.TrackedSourceIff | core-rs/core/src/rules/engine.rs:61-88 | a source is tracked exactly if it produced events and fewer than 10,000 others have since |
| RuleSpec.TrackedIsExact | core-rs/core/src/rules/engine.rs:61-88 | in every run the state held for a source is that of its own events since it last entered the cache, and none once evicted |
| RuleSpec.EntryIsWholeIff | core-rs/core/src/rules/engine.rs:61-88 | these are all its events exactly if fewer than 10,000 other sources came between any two consecutive ones |
| RuleSpec.LastAlertOfSource | core-rs/core/src/rules/engine.rs:44-88 | in any timestamp order a packet's alert is that of its source's events since entry |
| RuleSpec.AlertsSinceEntry | core-rs/core/src/rules/engine.rs:44-88 | in every packet run the last packet alerts exactly when the condition over its source's events since entry holds, with that count |
| RuleSpec.AlertsExactly | core-rs/core/src/rules/engine.rs:44-88 | for a source that stays tracked, exactly when the condition over all its events of the run holds |
| RuleSpec.AlertsAreSpaced | core-rs/core/src/rules/engine.rs:51-57 | in any timestamp order successive alerts of a source are at least one cooldown apart |
| RuleSpec.AlertRateIsBounded | core-rs/core/src/rules/engine.rs:44-59 | in any timestamp order n successive alerts of a packet run for a source that stays tracked span at least n - 1 cooldowns, without saturation |
| RuleMeaning.WatchedIff | core-rs/core/src/rules/engine.rs:61-99 | a packet is an event of a rule exactly if it has an address and: always for a packet rate; with its destination for a sweep; with its destination port if it has SYN and no ACK for a scan; as an unanswered query with a long label of high entropy for a tunnel |
| RuleMeaning.LabelsAreParts | core-rs/core/src/rules/engine.rs:96-98 | the labels that are tested are the stretches of the name between dots |
| RuleMeaning.HistoryIsOwn | core-rs/core/src/rules/engine.rs:44-88 | a source's events are its packets that the rule watches, all of them, in order, with their times and keys |
| RuleMeaning.ObservedIsInWindow | core-rs/core/src/rules/engine.rs:82-87 | the count is the number of packets, of distinct destinations, or of distinct destination ports among the source's newest 65,536 packets that are at most one window old |
| RuleMeaning.AlertMeans | core-rs/core/src/rules/engine.rs:44-59 | for a tracked source with settled times the last packet of a run alerts exactly if the rule watches it, that count reaches the threshold, and every earlier alert of the source is one cooldown old |
| RuleMeaning.InOrderAlertMeans | core-rs/core/src/rules/engine.rs:44-59 | so it does for every tracked source when packets come in order |
| Rules.SourceState.Add | core-rs/core/src/rules/engine.rs:82-87 | feeds the tracker of the rule's kind and reports its count |
| Rules.CompiledRule.Evaluate | core-rs/core/src/rules/engine.rs:44-59 | one packet's effect on all source states, and its alert, are those of the specification, whose events and alerts `WatchedIff` and `AlertMeans` tell by packets |
| Rules.CompiledRule.Observe | core-rs/core/src/rules/engine.rs:61-88 | the event's source is created or found, made the most recent one, and fed the event |
| Rules.CompiledRule.GetOrInsert | core-rs/core/src/rules/engine.rs:78-81 | the cache lookup that promotes an entry, or evicts the least recent and inserts a fresh one |
| Rules.RuleEngine.Evaluate | core-rs/core/src/rules/mod.rs:51-53 | every rule sees the packet and the alerts are collected in rule order |
| Detection.RulesAreIndependent | core-rs/core/src/rules/mod.rs:51-53 | each rule's state and alert depend on its own history, whatever the other rules do |
| Detection.EngineRaisesExactly | core-rs/core/src/engine.rs:100-114 | over every frame run the engine's alerts are those of every rule at every decoded packet, in order |
| Detection.EngineIsExact | core-rs/core/src/engine.rs:100-114 | over every frame run whose sources have settled timestamps, the engine's alerts are those that the rules' declarative conditions call for |
| Detection.InOrderEngineIsExact | core-rs/core/src/engine.rs:100-114 | so they are whenever frame times do not decrease |
| Layers.ParseEthernet | core-rs/core/src/packet/ethernet.rs:23-53 | the tag loop computes the specified header, payload or error |
| Layers.ParseIpv6 | core-rs/core/src/packet/ipv6.rs:19-62 | the extension header loop computes the specified header, payload or error |
| WireFormats.Ipv4Iff | core-rs/core/src/packet/ipv4.rs:10-40 | accepted exactly if it starts with a version 4 header of 20 bytes or more covered by the total length; fields and trimmed payload |
| WireFormats.TcpIff | core-rs/core/src/packet/tcp.rs:28-48 | accepted exactly if it is a TCP header of the announced length followed by the payload; all fields |
| WireFormats.SynOnlyBits | core-rs/core/src/packet/tcp.rs:22-26 | a segment opens a connection exactly if SYN is set and ACK is not, whatever the other flags |
| WireFormats.UdpIff | core-rs/core/src/packet/udp.rs:13-34 | accepted exactly if the length field is zero or covers the header; the payload is the announced or captured part |
| WireFormats.FixedHeaderIff | core-rs/core/src/packet/ipv6.rs:28-35 | next header, hop limit and both addresses stand where they are read |
| WireFormats.DnsHeaderIff | core-rs/core/src/packet/dns.rs:44-52 | id, response bit, opcode, result code and counts are exactly those on the wire |
| WireFormats.DnsIff | core-rs/core/src/packet/dns.rs:30-53 | any message, query or response, decodes exactly if it has a header and, if it announces questions, a readable name and a type behind it; header and first question are reported as they stand |
| Transparency.TagsAreTransparent | core-rs/core/src/packet/ethernet.rs:30-44 | inserting up to two VLAN tags leaves the decoded packet identical; three or more make the frame malformed |
| Transparency.PaddingIsIgnored | core-rs/core/src/packet/ipv4.rs:19-39 | bytes behind a complete datagram leave the decoded packet identical |
| Transparency.ChainsAreTransparent | core-rs/core/src/packet/ipv6.rs:37-61 | up to seven extension headers are walked to the payload behind them, eight or more are malformed |
| Transparency.Ipv6Iff | core-rs/core/src/packet/ipv6.rs:19-62 | the parser accepts exactly the version 6 datagrams with a chain of at most seven well-formed extension headers |
| PacketFormats.EthernetIff | core-rs/core/src/packet/ethernet.rs:23-53 | a frame is accepted exactly if at most two VLAN tags stand between its addresses and its ethertype; header and payload |
| PacketFormats.Ipv6DatagramIff | core-rs/core/src/packet/ipv6.rs:19-62 | accepted exactly if a version 6 header and at most seven well-formed extension headers precede the payload; addresses, hop limit, protocol and the last fragment header's fields |
| PacketFormats.TransportIff | core-rs/core/src/packet/mod.rs:148-182 | which transport and application follow a network header: nothing behind a later fragment, TCP, UDP with DNS by port, ICMP of either version, or another protocol by number |
| PacketFormats.PacketIff | core-rs/core/src/packet/mod.rs:104-182 | over Ethernet, loopback and raw links, a frame decodes to a packet exactly if it spells that packet at every layer |
| ParseErrors.Ipv4FailsIff | core-rs/core/src/packet/ipv4.rs:10-28 | which headers are refused, and for which of the four reasons |
| ParseErrors.TcpFailsIff | core-rs/core/src/packet/tcp.rs:28-36 | which headers are refused as too short, and which for their data offset |
| ParseErrors.UdpIcmpFailIff | core-rs/core/src/packet/udp.rs:13-25 | which UDP and ICMP headers are refused, and why |
| ParseErrors.EthernetIpv6Fail | core-rs/core/src/packet/ipv6.rs:19-61 | which reasons the Ethernet and IPv6 decoders give, and that a truncation names more bytes than there are |
| ParseErrors.MalformedIsFinal | core-rs/core/src/packet/mod.rs:104-182 | a frame found malformed stays so, for the same reason, however many more of its bytes had been captured |
| ParseErrors.TruncatedLacksBytes | core-rs/core/src/packet/mod.rs:104-182 | whatever is truncated lacks bytes; what the link layer refuses by itself |
| DnsParser.ReadName | core-rs/core/src/packet/dns.rs:55-95 | the decoding loop terminates on every message and computes the specified name or error |
| DnsParser.ParseDns | core-rs/core/src/packet/dns.rs:30-53 | header, optional first question, or the specified error; `DnsIff` says what is specified |
| DnsParser.ReadNameIff | core-rs/core/src/packet/dns.rs:55-95 | succeeds exactly if the bytes derive labels with at most 16 pointers and 253 characters; the name and the end position |
| Parser.Parse | core-rs/core/src/packet/mod.rs:104-182 | filling the packet layer by layer computes the specified packet, which `PacketIff` reads off the frame, or error |
| Parser.ParseTransport | core-rs/core/src/packet/mod.rs:148-181 | transport and application layers, or none for a later fragment |
| Names.JoinSplit | core-rs/core/src/synth.rs:82-85 | joining undoes splitting at dots |
| Names.NormaliseMeans | core-rs/core/src/packet/dns.rs:95-104 | letters come out small, other graphic characters unchanged, anything else as a question mark |
| Synth.FoldIsResidue | core-rs/core/src/synth.rs:101-103 | folding carries is the remainder modulo 65,535 |
| Synth.InternetChecksum | core-rs/core/src/synth.rs:96-105 | the two loops compute the complement of the folded word sum |
| Synth.ChecksumVerifies | core-rs/core/src/synth.rs:38-39 | a header with its checksum filled in sums to all ones |
| Synth.HeaderChecksumVerifies | core-rs/core/src/synth.rs:31-39 | every encoded IPv4 header passes the receiver's test |
| Synth.IcmpChecksumVerifies | core-rs/core/src/synth.rs:68-75 | every echo request passes its checksum test and carries its sequence number |
| Synth.Ipv4HeaderBytes | core-rs/core/src/synth.rs:31-39 | filling the buffer and then its checksum gives the specified header |
| Synth.EthernetIpv4Frame | core-rs/core/src/synth.rs:24-44 | appending the parts gives the specified frame |
| Synth.TcpSegment | core-rs/core/src/synth.rs:46-54 | filling the buffer gives the specified segment |
| Synth.UdpDatagram | core-rs/core/src/synth.rs:56-65 | appending the fields gives the specified datagram |
| Synth.IcmpEchoFrame | core-rs/core/src/synth.rs:67-74 | filling the buffer gives the specified echo request |
| Synth.DnsQuery | core-rs/core/src/synth.rs:76-94 | the label loop gives the specified query |
| RoundTrip.FrameRoundTrip | core-rs/core/src/synth.rs:24-44 | any encoded frame reaches the transport parser with addresses, protocol and payload intact |
| RoundTrip.LinkHeaderRoundTrip | core-rs/core/src/synth.rs:22-28 | every encoded frame has the two local addresses and carries IPv4 |
| RoundTrip.TcpRoundTrip | core-rs/core/src/synth.rs:46-54 | a segment decodes to its addresses, ports, flags and window |
| RoundTrip.UdpRoundTrip | core-rs/core/src/synth.rs:56-65 | a datagram decodes to its addresses, ports and length, and its payload reaches the application parser |
| RoundTrip.IcmpRoundTrip | core-rs/core/src/synth.rs:67-74 | an echo request decodes to its type and code |
| RoundTrip.PayloadDecodes | core-rs/core/src/synth.rs:76-90 | a query with labels up to 63 bytes and a name up to 253 decodes to its id, type and normalised name |
| RoundTrip.CleanNameReturns | core-rs/core/src/packet/dns.rs:97-103 | for a name without empty labels what comes back is the name, normalised |
| RoundTrip.DnsQueryRoundTripIff | core-rs/core/src/synth.rs:76-94 | a query frame decodes to what was asked exactly if its labels have at most 63 bytes and its name at most 253 |
| Generator.ZeroIsApart | core-rs/core/src/synth.rs:108-121 | an xorshift step gives zero exactly from zero, so a walk from the seed, or from 1 for a seed of 0, never gets stuck |
| Generator.FirstStep | core-rs/core/src/synth.rs:114-121 | the first number drawn from seed 1 |
| Generator.Rng.Below | core-rs/core/src/synth.rs:114-125 | one xorshift step, and its result modulo the bound |
| Generator.Generate | core-rs/core/src/synth.rs:181-204 | the frames and times are those of the specified walk from the seed, each number deciding what the program lets it decide |
| Generator.WalkIsScripted | core-rs/core/src/synth.rs:181-250 | whatever the seed, the walk's frames are 1 to 2,000 microseconds apart and each is of the kind its scenario scripts for its index |
| Generator.NextFrame | core-rs/core/src/synth.rs:190-200 | the frame at an index, and the random state after it, are the specified ones |
| Generator.BackgroundPacket | core-rs/core/src/synth.rs:206-230 | the client, the dice, the server, domain, payload size and direction that the random numbers select |
| Generator.BackgroundDraws | core-rs/core/src/synth.rs:206-230 | seventy of a hundred draws are segments, twenty queries, ten echo requests, and which client, server, size, direction and domain each state selects |
| Generator.AttackDraws | core-rs/core/src/synth.rs:232-250 | ends, ports, flags and ids of probes, flood segments and tunnel queries, by successive states of the random source |
| Generator.SessionsDiffer | core-rs/core/src/synth.rs:212-216 | no two sessions of clients and servers share a socket |
| Generator.FloodSyn | core-rs/core/src/synth.rs:238-242 | a bare SYN to the target from the address and port that the random numbers select |
| Generator.TunnelQuery | core-rs/core/src/synth.rs:244-250 | a TXT query for the 48 base32 characters that the random numbers select, under the tunnel's domain |
| Generator.EncodedParts | core-rs/core/src/synth.rs:82-86 | the labels of a name take at most one byte more than the name |
| GeneratedPackets.TrafficDecodes | core-rs/core/src/packet/mod.rs:104-182 | every generated frame decodes to the packet it was made from |
| GeneratedPackets.ShortNames | core-rs/core/src/synth.rs:76-90 | a query for a short name decodes, and no label asked for is longer than the name |
| GeneratedPackets.TunnelNameReturns | core-rs/core/src/synth.rs:244-250 | a tunnel query's name decodes, with its random label intact and every other label shorter than 20 bytes |
| Injections.QueryIsSeenIff | core-rs/core/src/rules/engine.rs:90-99 | the tunnel rule sees a generated tunnel query exactly if its random label has high entropy |
| Injections.ReachesThresholdIff | core-rs/core/src/rules/engine.rs:47-49 | the window reaches the threshold from the hundredth probe, or the twentieth query, on and not before |
| Injections.PacketRaises | core-rs/core/src/rules/engine.rs:44-59 | a packet alerts exactly if it is an injection, enough went before, and the last alert is one cooldown old |
| Injections.InjectionTimeline | core-rs/core/src/synth.rs:181-236 | which packets of a run alert, when, and for whom: the first in full number, then the first after each cooldown |
| QuietTraffic.FewKeysNoAlert | core-rs/core/src/rules/engine.rs:44-49 | a source with fewer distinct keys than the threshold never alerts, in any timestamp order |
| QuietTraffic.NoSweeps | core-rs/core/src/synth.rs:181-250 | no scenario raises a host-sweep alert, whatever the seed and length |
| QuietTraffic.NoTunnels | core-rs/core/src/synth.rs:181-242 | no scenario but the tunnel raises a tunnel alert |
| QuietTraffic.NoScans | core-rs/core/src/synth.rs:181-250 | no scenario but the port scan raises a port-scan alert, not even a flood of connection requests |
| Demonstration.OfOne | core-rs/core/src/rules/mod.rs:51-53 | of what the engine raises at a packet, the alerts with a rule's name are that rule's own |
| Demonstration.Demonstrate | core-rs/core/src/synth.rs:181-250 | generated frames of any scenario through an engine with the built-in rules: scan and tunnel timelines by packet, time and source, and otherwise none but packet-rate alerts |
| FlowSpec.SameFlowIff | core-rs/core/src/flow.rs:27-35 | packets share a flow exactly if protocol and unordered endpoint pair agree |
| FlowSpec.CanonicalKeepsSender | core-rs/core/src/flow.rs:27-35 | key and direction give back sender and receiver |
| FlowSpec.KeyOrder | core-rs/core/src/flow.rs:8-19 | the derived order on flow keys is a strict total order |
| FlowSpec.KeyLessIff | core-rs/core/src/flow.rs:8-19 | keys compare field by field: first end, second end, protocol; ends by address family, octets and port |
| FlowSpec.ExpireKeepsFresh | core-rs/core/src/flow.rs:110-121 | a flow with last_seen + timeout > now stays, those removed are counted and have last_seen + timeout <= now, for any timestamps |
| FlowSpec.ExpireIsCompleteIff | core-rs/core/src/flow.rs:110-121 | expiry leaves no flow with last_seen + timeout <= now behind exactly if none was touched after one without |
| FlowSpec.FlowsAreConserved | core-rs/core/src/flow.rs:86-121 | over every run flows created are live, evicted or expired, within capacity, and packets and bytes per direction balance |
| FlowSpec.AggregateMeaning | core-rs/core/src/flow.rs:86-108 | statistics hold the totals per direction, the first time and the latest time of their updates |
| FlowSpec.AggregateFlags | core-rs/core/src/flow.rs:92 | a TCP flag is set exactly if some update has it |
| FlowSpec.LiveFlowIsExact | core-rs/core/src/flow.rs:86-108 | a live flow's statistics are exactly those of its updates since it was created |
| FlowTables.FlowTable.Update | core-rs/core/src/flow.rs:86-108 | the in-place update and its eviction count are those of the specification |
| FlowTables.FlowTable.Expire | core-rs/core/src/flow.rs:110-121 | the loop drops exactly the leading flows past their timeout and counts them, as specified |
| FlowTables.FlowTable.TopByBytes | core-rs/core/src/flow.rs:123-140 | the heap yields the n largest flows under bytes then key, listed by bytes descending then key ascending |
| FlowTables.TopIsUnique | core-rs/core/src/flow.rs:123-140 | there is only one such list, so the heap refines sorting everything and taking n |
| FlowTables.ListedMeans | core-rs/core/src/flow.rs:123-140 | the order is by bytes of both directions together, and among equals by key |
| EngineSpec.DecodedIsShaped | core-rs/core/src/packet/mod.rs:104-182 | a decoded packet has a transport exactly if it has an address, DNS only over UDP, and the frame's time |
| EngineSpec.CountersMean | core-rs/core/src/engine.rs:147-173 | over every run each counter is the number of frames that decode to what it is named for |
| EngineSpec.CountersPartition | core-rs/core/src/engine.rs:100-173 | over every run the counters add up at every layer |
| EngineSpec.EngineDrivesFlows | core-rs/core/src/engine.rs:139-203 | the engine's flow table is a run of updates and sweeps, with one update per counted transport |
| EngineSpec.EngineConservesPackets | core-rs/core/src/engine.rs:175-203 | packets of live and removed flows together are the transports counted |
| FlowMeaning.UpdateMeans | core-rs/core/src/engine.rs:175-203 | a packet with an address that is no later fragment updates the flow of its ends and protocol, in its direction, with its time, wire length and TCP flags |
| FlowMeaning.EngineConservesBytes | core-rs/core/src/engine.rs:175-203 | bytes of live and removed flows together are the wire bytes of the frames that belong to flows |
| Sweeps.SweepsOncePerSecond | core-rs/core/src/engine.rs:139-145 | the clock is the latest frame time, the first frame sweeps, and then whichever is a second or more after the last sweep |
| Sweeps.FlowsLeaveForAReason | core-rs/core/src/engine.rs:139-145 | over every run a flow leaves the table only by a counted eviction, or in a due sweep with last_seen + timeout <= clock |
| Engines.Engine.Process | core-rs/core/src/engine.rs:100-114 | one frame's effect on counters, clock, flows, rules and alerts is that of the specification |
| Engines.Engine.AdvanceClock | core-rs/core/src/engine.rs:139-145 | the clock is the latest time, and a sweep runs when it is due |
| Engines.Engine.Count | core-rs/core/src/engine.rs:147-173 | counting field by field is the specified count |
| Engines.Engine.TrackFlow | core-rs/core/src/engine.rs:175-203 | a packet with an address that is no later fragment updates its canonical flow |
| Engines.Engine.DrainAlerts | core-rs/core/src/engine.rs:96-98 | the pending alerts are handed over and none stays |
| Engines.Engine.TakeSnapshot | core-rs/core/src/engine.rs:116-125 | counters, flow totals, clock and top list of the current state |
| Engines.Replay | core-rs/core/src/engine.rs:100-114 | feeding a run of frames to an engine gives the specified final state |
| Staleness.ProcessKeeps | core-rs/core/src/engine.rs:100-145 | one frame keeps the recency order within `lateness` of age and the next sweep in time |
| Staleness.LiveFlowsAreRecent | core-rs/core/src/engine.rs:139-145 | if no frame is more than D late, every live flow was seen less than timeout + 1 s + D ago |
| Staleness.InOrderSweepsAreComplete | core-rs/core/src/engine.rs:139-145 | when frame times do not decrease, every sweep leaves fresh flows only |
| Staleness.LateFlowSurvives | core-rs/core/src/flow.rs:110-121 | three frames after which the engine holds a flow seen six seconds ago, past its timeout of two and a sweep |
| PcapSpec.ContentsOfEncoded | core-rs/core/src/pcap.rs:85-112 | reading spelled records gives them back, in either byte order and time unit, and goes on with what follows |
| PcapSpec.ContentsDecompose | core-rs/core/src/pcap.rs:85-112 | every byte string is a spelling of the records read from it and a remainder that decides why reading stops |
| PcapSpec.ContentsOfCut | core-rs/core/src/pcap.rs:85-112 | a cut gives the records wholly before it, then a clean end on a boundary and a truncation elsewhere |
| PcapSpec.WholeFileIff | core-rs/core/src/pcap.rs:96-98 | spelled records are read back whole exactly if none exceeds 262,144 bytes |
| PcapSpec.LayoutIff | core-rs/core/src/pcap.rs:64-71 | the four octets that announce each byte order and time unit |
| PcapSpec.OpenIff | core-rs/core/src/pcap.rs:60-79 | a file opens exactly if it has 24 octets that start with one of these and name a known link type |
| PcapSpec.RefusedIff | core-rs/core/src/pcap.rs:60-79 | why a file does not open |
| PcapSpec.StampMeans | core-rs/core/src/pcap.rs:103-107 | nanosecond fractions are rounded down to microseconds, others are added as they are, in either byte order |
| PcapSpec.TimeReturns | core-rs/core/src/pcap.rs:85-112 | a record spelled from a time in nanoseconds is read with that time in whole microseconds, one from microseconds with that time |
| PcapFiles.ReadFullOrEof | core-rs/core/src/pcap.rs:157-169 | full, partial or at the end depends on the bytes left only, however reads are split or interrupted |
| PcapFiles.PcapReader.Open | core-rs/core/src/pcap.rs:60-79 | a file is opened exactly if its header is, with its layout and link type, or refused for the specified reason |
| PcapFiles.PcapReader.NextRecord | core-rs/core/src/pcap.rs:85-112 | yields the specified record, whose time `TimeReturns` tells, the end, or the specified error |
| PcapFiles.PcapReader.ReadAll | core-rs/cli/src/main.rs:79-87 | the reading loop yields all records of the rest of the file and why it stops |
| PcapFiles.ReadU32IsWord | core-rs/core/src/pcap.rs:171-178 | swapping the bytes of a little-endian word reads it in big-endian order |
| PcapFiles.PcapWriter.WriteRecord | core-rs/core/src/pcap.rs:133-144 | appends the record, or changes nothing exactly if its size or time does not fit 32 bits |
| PcapFiles.PcapWriter.WriteAll | core-rs/cli/src/main.rs:53 | writing a run of records gives the file of these records, or an error if one does not fit |
| PcapFiles.HeaderOpens | core-rs/core/src/pcap.rs:120-131 | a written file header opens with its link type |
| PcapFiles.HeaderOctets | core-rs/core/src/pcap.rs:120-131 | the 24 octets of a written file header |
| PcapFiles.FileRoundTripIff | core-rs/core/src/pcap.rs:119-149 | writing then reading returns link type and records exactly if no record exceeds 262,144 bytes |
| PcapFiles.CutFileReads | core-rs/core/src/pcap.rs:85-178 | a written file cut anywhere after its header reads as its whole records and then end or truncation |
| PcapFiles.CutHasBoundary | core-rs/core/src/pcap.rs:133-144 | every cut after the header falls behind some number of whole records |
| PcapReplay.File.Fread | sniffer-c/src/pcap_replay.c:105-122 | delivers as many bytes as there are and notes the end or the error |
| PcapReplay.Field32IsWord | sniffer-c/src/pcap_replay.c:16-30 | the shifts and masks read a word in either byte order |
| PcapReplay.Sniffer.ParseMagic | sniffer-c/src/pcap_replay.c:32-44 | byte order and time unit of the four magic numbers |
| PcapReplay.Sniffer.ReplayOpen | sniffer-c/src/pcap_replay.c:46-69 | opens exactly the files with a header and a known magic number, of any link type |
| PcapReplay.Sniffer.ReplayRecord | sniffer-c/src/pcap_replay.c:104-128 | one round delivers the specified record, whose time `TimeReturns` tells, or stops for the specified reason, within its buffer |
| PcapReplay.Sniffer.ReplayLoop | sniffer-c/src/pcap_replay.c:98-137 | delivers all records or the first `max_frames`, and never reports a read error |
| PcapReplay.InstalledLinkIsRaw | core-rs/core-ffi/src/core.rs:162-164 | the detour of the link type through a signed integer changes nothing |
| PcapReplay.ReplayInRust | core-rs/core/src/pcap.rs:59-113 | the Rust reader on a whole file |
| PcapReplay.ReplayInC | sniffer-c/src/pcap_replay.c:46-137 | the C replay on a whole file |
| PcapReplay.ReplayBoth | sniffer-c/src/pcap_replay.c:98-137 | both readers accept the same files and agree on link type, records and stop reason; how they differ on failing files |
| Captures.DrainingCommutes | core-rs/cli/src/main.rs:79-87 | draining alerts between frames changes nothing else in the engine |
| Captures.CommandLineReplay | core-rs/cli/src/main.rs:67-92 | a complete file gives the snapshot and alerts of its engine run, a damaged one no report |
| Captures.ApplicationReplay | core-rs/core-ffi/src/core.rs:154-172 | the application ingests all records of the file and queues the newest 1,024 alerts of its engine run |
| Captures.SameDetections | core-rs/cli/src/main.rs:67-92 | both paths report the same snapshot and raise the same alerts on every complete file |
| AlertQueue.RunIsSafe | core-rs/core-ffi/src/core.rs:60-68 | mutual exclusion, order, late drops and balance hold after every interleaving |
| AlertQueue.AlertsAreAccountedFor | core-rs/core-ffi/src/core.rs:60-68 | every announced alert is in flight, taken, dropped or queued; at most 1,024 are queued |
| AlertQueue.QueueIsCommittedRest | core-rs/core-ffi/src/core.rs:262-264 | the queue is the committed sequence after its first taken + dropped entries; pollers see commit order |
| AlertQueue.DropsAreLate | core-rs/core-ffi/src/core.rs:63-66 | a dropped alert has at least 1,024 alerts committed after it |
| AlertQueue.NoDeadlock | core-rs/core-ffi/src/core.rs:60-68 | the lock's holder can always go on, and a free lock goes to any waiting producer |
| AlertQueue.UndisturbedPush | core-rs/core-ffi/src/core.rs:60-68 | a push that nobody interrupts does what the sequential push does |
| AlertQueue.UndisturbedPoll | core-rs/core-ffi/src/core.rs:262-264 | a poll that nobody interrupts takes the oldest alert exactly if there is one |
| AlertQueue.PushThenPoll | core-rs/core-ffi/src/core.rs:60-68 | from every state of every run with two idle threads and a free lock, one alert goes in and the oldest comes out |
| AlertQueue.NewestOfMore | core-rs/core-ffi/src/core.rs:51-53 | keeping the newest alerts one by one is keeping the newest of all |
| SharedCore.Shared.Ingest | core-rs/core-ffi/src/core.rs:43-54 | one frame is processed and its alerts queued; the newest 1,024 stay and the displaced are counted |
| SharedCore.Shared.PushAlert | core-rs/core-ffi/src/core.rs:60-68 | appends the alert, displacing and counting the oldest one if the queue is full |
| SharedCore.Shared.PopAlert | core-rs/core-ffi/src/core.rs:262-264 | takes the oldest alert, if any |
| LinkSteps.RunHolds | core-rs/core-grpc/src/link.rs:158-242 | order, counters, stream buffer, published state and timer invariants hold after every interleaving |
| LinkSteps.BatchesAreConserved | core-rs/core-grpc/src/link.rs:106-112 | accepted batches are queued, in hand, sent, drained, lost in a stream or left at shutdown, in order; at most 8 are queued |
| LinkSteps.CountersAreExact | core-rs/core-grpc/src/link.rs:106-112 | `sent` and `dropped` are the batches handed over and those refused or drained, up to a step in progress |
| LinkSteps.UndisturbedOffer | core-rs/core-grpc/src/link.rs:106-112 | an offer that nobody interrupts queues its batch if the link is up and has room, and is counted as dropped otherwise |
| LinkSteps.LostStreamsCostLittle | core-rs/core-grpc/src/link.rs:218-225 | each lost stream discards at most one uncounted batch and, from the stream's own channel, at most eight counted ones |
| LinkSteps.BackoffDoubles | core-rs/core-grpc/src/link.rs:160-176 | every wait begins with a step that counts one reconnect, and lasts min(500 * 2^n, 30000) ms if n others began since the last step that published a connection |
| LinkSteps.CheckedIff | core-rs/core-grpc/src/link.rs:106-107 | in every run a thread is between check and send exactly if it began an offer while the link was up and has not sent since |
| LinkSteps.QueuesWhileDownIff | core-rs/core-grpc/src/link.rs:106-112 | in every run a batch is queued while the link is down exactly by completing an offer that began while it was up, the link having gone down since; offers that begin while it is down are refused |
| LinkSteps.QueuedWhileDown | core-rs/core-grpc/src/link.rs:106-112 | a run in which a batch is queued while the link is down |
| LinkSteps.SentAfterOutage | core-rs/core-grpc/src/link.rs:158-242 | a run in which that batch is sent on the next stream |
| LinkOrder.PeerGetsInOrder | core-rs/core-grpc/src/link.rs:180-225 | in every run the stream's buffer holds the batches handed over last, and the peer has got the others that did not vanish, in the order of acceptance and none twice |
| LinkEnds.BrokenIff | core-rs/core-grpc/src/link.rs:218-225 | in every run the receiving half of the current stream is gone exactly if a step of this stream broke it |
| LinkEnds.ForgetsIff | core-rs/core-grpc/src/link.rs:218-225 | in every run a step loses an accepted batch uncounted exactly if it forwards it into a stream broken after it began |
| LinkEnds.VanishesIff | core-rs/core-grpc/src/link.rs:180-216 | in every run a step makes counted batches vanish exactly if it ends a stream whose buffer holds some |
| LinkEnds.ForgottenRun | core-rs/core-grpc/src/link.rs:218-225 | a run that accepts a batch and loses it with every counter at zero |
| LinkEnds.VanishedRun | core-rs/core-grpc/src/link.rs:218-225 | a run that counts a batch as sent which no peer gets |
| LinkEnds.ShutdownIsStuckIff | core-rs/core-grpc/src/link.rs:136-143 | in every run, once told to shut down, the worker cannot go on exactly while it forwards into a live stream whose buffer is full |
| LinkEnds.ShutdownCompletes | core-rs/core-grpc/src/link.rs:136-143 | from every such state the worker can stop within seven steps, after one transmission if it is stuck |
| LinkEnds.EveryRunCanStop | core-rs/core-grpc/src/link.rs:136-143 | whatever went before, the worker can stop within eight steps of a request to shut down |

## Left out

- C ABI exports, raw pointers, unwinding and the C# layer above: marshalling, no algorithm.
- User interface, formatting and printed reports: presentation.
- Live capture, device listing, dynamic library loading, threads: foreign calls.
- Replay pacing, wall clocks and the stop flag: timing only; the replay loop is modelled with the flag unset.
- `fopen` and `malloc` failures in the C replay: outside the file's content.
- gRPC and its transport: only connecting, taking a batch, and losing a stream remain, as nondeterministic steps; scores that come back are not modelled.
- The Python service: library numerics.
- YAML parsing and the filter for enabled rules: rules come validated, as a list, with a threshold of at least 1 in practice; durations are integer microseconds.
- Alert text and score: formatting and floating point; an alert carries time, rule, severity, source and count.
- Reloading rules and reopening a capture: both install fresh state, so runs are stated between them.
- An engine without rules: the same as one with an empty list of rules.
- Lru.TouchedIsMostRecent: does not model the `lru` crate itself but its documented behaviour, as a sequence in recency order.
- RuleSpec.AlertsExactly: does not model Shannon entropy, which is an arbitrary predicate on labels; the timestamps of the source must be settled, because eviction looks at the oldest event only; `ExactIffSettled` shows that windows are exact exactly then. Without staying tracked, `AlertsSinceEntry` is what holds.
- Window.DistinctWindow.Add: does not model the 32-bit width of index counts, which the cap of 65,536 events keeps far from overflow (`IndexSize`).
- Engines.Engine.Process: does not model wrap-around of 64-bit counters nor of `last_ts + 1 s` for timestamps within a second of 2^64.
- FlowTables.FlowTable.Expire: does not model wrap-around of `last_seen + timeout` for timestamps near 2^64.
- FlowTables.FlowTable.TopByBytes: does not model the binary heap and the sort as data structures; the heap is a set whose least element is removed, the sort takes the first element repeatedly.
- Synth.InternetChecksum: does not model the 32-bit width of the running sum, which inputs of at most 64 KiB cannot exceed.
- Synth.DnsQuery: does not model the panic on labels over 255 bytes or datagrams over 64 KiB; they are excluded by its precondition.
- Demonstration.Demonstrate: does not say when the packet-rate rule alerts, which depends on how often addresses repeat within a second, nor when a tunnel is reported of whose labels only some have high entropy.
- PcapFiles.PcapReader.NextRecord: does not model reuse of the caller's buffer; header and data come back as one record.
- PcapFiles.Source.Read: does not model I/O errors other than interruptions and a permanent failure after the last byte.
- SharedCore.Shared.Ingest: does not model other threads between its pushes; `AlertQueue` does, without the engine lock.
- Captures.ApplicationReplay: does not model pollers that take alerts during the replay.
- LinkSteps.LostStreamsCostLittle: does not model what becomes of a batch that the transport has pulled from the channel; it counts as transmitted.
- LinkSteps.RunHolds: does not model weak memory ordering of the relaxed atomics; each atomic access is one step.
- LinkEnds.ShutdownCompletes: does not model how long an attempt to connect takes; in the model it always ends.
