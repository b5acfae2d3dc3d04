# Numax: a verified model of its replication runtime

Numax runs WebAssembly guests over a replicated key-value store. This project models, in Dafny
4.11, the parts of it whose correctness depends on interleavings, on orders of arrival, or on
several layers agreeing with each other, and proves what they promise for every input and every run.

| file | what it models |
|---|---|
| `PeerProtocol.dfy`, `PeerRuns.dfy`, `PeerSessions.dfy`, `PeerNode.dfy` | peer connections of one node: dials, accepts, failing writers, reader cleanup and shutdown, as a transition system whose steps are the lock-protected regions; what holds over every run; what a dial, an accepted socket and the end of a connection lead to; the regions that change the peer map, its closed flags and the task registry, written on the node's fields in place and each proved to be one step |
| `Texts.dfy`, `IpAddress.dfy`, `Endpoint.dfy`, `EndpointCase.dfy`, `BootstrapServer.dfy`, `Formats.dfy`, `BootstrapQuery.dfy` | the bootstrap seed: canonical endpoints, the leased candidate cache with its history, and a query checked end to end |
| `ByteOrder.dfy`, `OrderedStore.dfy`, `ScanWalks.dfy`, `Base64Url.dfy`, `KeyListing.dfy`, `KeyWalk.dfy` | cursor pagination through the store, the runtime control and the HTTP API, while the store changes |
| `Folding.dfy`, `Crdt.dfy`, `Replication.dfy`, `CrdtReadings.dfy`, `Agreement.dfy`, `Convergence.dfy`, `RgaOrder.dfy` | the replicated data types, delivery of operations to replicas, what a cell means, when two outcomes and two replicas agree, and the sequence order of the growable array |
| `DiscoveryWatch.dfy` | the discovery watch over a bounded event ring |
| `Histogram.dfy`, `StaleScrape.dfy` | the lock-free duration histogram scraped while it is written, with fresh and with stale loads |
| `Endian.dfy`, `Framing.dfy`, `GuestRows.dfy` | wire frames and the guest's row and key buffers |
| `GradientWalk.dfy` | the greedy walk of the ants renderer |

Conventions: a connection's pointer identity is a generation number; permits of a semaphore are a
counter with the set of their holders; times are natural numbers; identifiers that the source
compares as strings are byte strings in lexicographic order. `dafny verify dfyconfig.toml` checks
the whole project.

## Where the code does less than one might think

* **Shutdown and late dials.** After `shutdown` has returned, a dial whose handshake finishes late
  still inserts its connection. It holds the map lock until the closed registry has refused its
  reader and the entry is gone again, so no state with the lock free ever shows it
  (`PeerRuns.ShutdownIsFinal`).
* **Register ties.** A last-writer-wins register compares time and author only. Two writes with the
  same time and author but different values do not commute (`Crdt.ClashingOpsDiffer`); the register
  keeps the one that came first. The same holds for two insertions of one array element with different
  contents. Any other two operations commute (`Crdt.OpsCommute`), and map fields break every tie. A clash
  is harmless if and only if a third write beats both sides of it: all orders of some operations have one
  outcome exactly when every clash among them is beaten like this (`Convergence.EveryOrderAgrees`). A
  node's own writes take a time above the one its register holds
  (`crates/nx-core/src/host_api/crdt.rs:472-474`), so a tie comes from a peer that does not keep to this,
  or from the largest time there is.
* **Forgotten operations.** Duplicates are recognised among the newest `limit` operations only: a
  repeat is skipped exactly while fewer than `limit` operations were applied since its last time
  (`Convergence.RecognisedWhileRecent`). A repeat changes nothing for registers, maps, sets and arrays, nor
  for a counter that is full, and it shows in any other counter it adds to (`Convergence.RepeatChangesNothing`), so
  two replicas sent the same operations can disagree (`Convergence.ForgetfulReplicasDisagree`). Given the
  operations and the limit, every delivery leads to one outcome if and only if every clash is beaten and
  either the memory can hold all the operations or none of them adds to a counter that is not yet full
  (`Convergence.EveryDeliveryConverges`).
* **Late parents.** An array element whose parent is unknown stands at the root until the parent
  arrives. The listed order survives every later insertion if and only if no element waits like this
  (`RgaOrder.StableIffNobodyWaits`); a waiting element can even vanish
  (`RgaOrder.LateParentHidesElement`). Elements whose parents form a cycle are not listed at all; nothing
  is lost exactly when the parents can be ranked (`RgaOrder.CompleteIffCausal`).
* **Endpoint canonicalization** takes an undialable IPv4 literal with a final dot for a DNS name, strips
  the dot, and then refuses its own result: `0.0.0.0.:1` becomes `0.0.0.0:1`. This holds for that whole
  family (`Endpoint.DottedIsAcceptedOnce`), and canonicalization is idempotent exactly off it
  (`Endpoint.CanonicalIsStable`). A seed that caches such an endpoint acknowledges queries whose
  candidate list every client refuses as a whole (`BootstrapQuery.Query`,
  `BootstrapQuery.UndialableLeaseFailsQuery`).
* **Candidate lifetimes.** The configuration error speaks of a lower bound of one millisecond, but
  only zero is rejected. A shorter lifetime is sent as zero milliseconds and every client refuses it
  (`BootstrapQuery.Query`).
* **Scan cursors.** The early break of a key-cursor scan assumes a cursor inside its prefix. For other
  cursors it can hide keys; `OrderedStore.CursorFits` is the exact set of cursors for which it never does.
* **Relaxed loads.** A scrape reads the buckets first and the count last, and each recorder raises the
  count first. When loads may return older values, cumulative buckets stay within the `+Inf` count in
  every run if and only if no bucket is read at a moment more than two steps later than the count, where
  the steps of all recorders and of the scrape are counted (`StaleScrape.ConsistentIffCountIsFresh`).

## Model

| member | source | states |
|---|---|---|
| PeerRuns.ShutdownIsFinal | crates/nx-net/src/node.rs:971-990 | over every interleaving, once some shutdown has returned no task is left and the peer map is empty whenever its lock is free; while a late dial holds the lock, its entry is the only one, and its admission is refused and takes the entry back out |
| PeerRuns.SlotsAreConserved | crates/nx-net/src/node.rs:335-351 | in every reachable state, free permits + handshakes in flight + map entries = `max_peers`; every entry is connected, so connected peers never exceed the limit, replacement included |
| PeerRuns.LimitCheckNeverRefuses | crates/nx-net/src/node.rs:1433-1448 | the peer-limit check never refuses a handshake that holds a permit |
| PeerRuns.HolderHasRoom | crates/nx-net/src/node.rs:1433-1448 | in every state that keeps the invariants, a permit in flight implies room in the map |
| PeerRuns.DialsExcludeEachOther | crates/nx-net/src/node.rs:353-382 | at most one dial owns the attempt slot, and no two own the guard of the same endpoint |
| PeerRuns.ClosedFlagIsExact | crates/nx-net/src/node.rs:345-351 | a generation's closed flag is up exactly when it has been inserted and is not a current entry |
| PeerRuns.OneDisconnectPerInstance | crates/nx-net/src/node.rs:954-967 | over every run each generation yields at most one disconnect, and a replaced one none |
| PeerRuns.OnlyItsOwnStepEndsAnInstance | crates/nx-net/src/node.rs:1340-1350 | a stale failure or cleanup never changes or closes the replacement: only the instance's own removal, a replacement, its own rollback or a shutdown ends an entry |
| PeerRuns.DisconnectCountsTheRest | crates/nx-net/src/node.rs:1301-1328 | every disconnect event was made by the step that removed its generation, with the number of connected peers right after that removal |
| PeerRuns.EntryNamesItsPeer | crates/nx-net/src/node.rs:634-637 | over every run, every entry carries the identity brought by the handshake whose step inserted its generation, at that address |
| PeerRuns.NoticeNamesItsPeer | crates/nx-net/src/node.rs:954-967 | over every run, every disconnect event names the peer of the handshake that inserted its generation |
| PeerRuns.RemovalIsAnnounced | crates/nx-net/src/node.rs:1301-1328 | the removal of a current generation by its writer or its reader adds exactly one notice, with its peer and the number of entries left |
| PeerRuns.LatchesHold | crates/nx-net/src/node.rs:971-990 | over every run, a raised shutdown flag stays up and no dial starts after it, a closed registry stays closed and admits no task, and closed slots stay closed and give out no permit and no attempt slot |
| PeerRuns.TasksHaveOneOwner | crates/nx-net/src/node.rs:103-150 | every admitted, unfinished task is owned by exactly one of the registry and the running shutdown; a cancelled shutdown finds the registry empty and hands back every unfinished task |
| PeerRuns.ShutdownCanReturn | crates/nx-net/src/node.rs:971-990 | from every reachable state in which a shutdown is under way, whatever its phase, some continuation lets it return with an empty map |
| PeerRuns.StepKeepsInv | crates/nx-net/src/node.rs:536-745 | every step keeps the invariants on table, events, permits, dials, tasks and shutdown |
| PeerRuns.InvAlways | crates/nx-net/src/node.rs:536-745 | the invariants hold in every state of every run |
| PeerSessions.DialConnects | crates/nx-net/src/node.rs:536-745 | a dial that nothing hinders connects: the map gains its peer, its reader runs and is owned by the registry, one permit is gone, and guard, attempt slot and lock are free again |
| PeerSessions.DialCanEnd | crates/nx-net/src/node.rs:353-382 | from every state that keeps the invariants a dial can end, and then owns no guard, slot, lock or permit |
| PeerSessions.AcceptConnects | crates/nx-net/src/node.rs:480-530 | an accepted socket that nothing hinders connects, in place of what was at its address, and the listener listens again |
| PeerSessions.SocketIsRefused | crates/nx-net/src/node.rs:507-524 | a socket accepted as the registry closes is given up: its permit comes back and its listener ends |
| PeerSessions.FailureIsReported | crates/nx-net/src/node.rs:954-967 | a writer that fails on a current entry takes it out, gives its permit back, and the event delivered names the peer and counts the others |
| PeerSessions.ReaderIsReported | crates/nx-net/src/node.rs:1301-1328 | so does a reader that comes to its end, and its task goes |
| PeerSessions.LostStaysLost | crates/nx-net/src/node.rs:1478-1508 | over every run, a notice that was dropped, at shutdown on a full queue or for want of a receiver, is never delivered later, nor is another one of its generation |
| PeerSessions.FailedWriterWasTaken | crates/nx-net/src/node.rs:768-823 | over every run, a writer fails only on a generation that was current when a broadcast or send took it |
| PeerSessions.DialMeetsNobody | crates/nx-net/src/node.rs:540-542 | over every run, a dial passes its lookup and enters the map only while its address has no entry, so it never displaces anyone |
| PeerSessions.RetryTakesOver | crates/nx-net/src/node.rs:140-150 | a shutdown cancelled at either await can be called again and takes over exactly the tasks it held |
| PeerNode.Node.constructor | crates/nx-net/src/node.rs:75-101 | a new node starts in the initial protocol state |
| PeerNode.Node.Drop | crates/nx-net/src/node.rs:345-351 | dropping a connection raises its closed flag and returns its permit |
| PeerNode.Insert | crates/nx-net/src/node.rs:634-653 | the entry at the address is the fresh generation with the identity the handshake brought, connected; every other entry stays; the displaced connection, if any, has its flag raised and gives one permit back |
| PeerNode.Node.EnterOutbound | crates/nx-net/src/node.rs:622-653 | the first region of a dial, in each of its three outcomes, is exactly one protocol step; on entry the map gains exactly the peer that the handshake named, under a fresh generation |
| PeerNode.Node.AdmitReaderTask | crates/nx-net/src/node.rs:655-739 | the reader is admitted exactly when the registry is open; otherwise the entry, if still current, is rolled back under the same lock |
| PeerNode.Node.SpawnTask | crates/nx-net/src/node.rs:75-101 | a closed registry refuses; an open one forgets exactly the finished handles and owns the new task under a fresh number |
| PeerNode.Node.HasRoom | crates/nx-net/src/node.rs:1433-1448 | room exactly for a replacement or while fewer entries are connected than the limit |
| PeerNode.Node.EnterInbound | crates/nx-net/src/node.rs:1238-1262 | the write-locked region of an inbound handshake is exactly one protocol step, refusal included; on entry the map gains exactly the peer that the handshake named, and its task reads that generation |
| PeerNode.Node.TakeOut | crates/nx-net/src/node.rs:1340-1350 | removal happens only for the current generation, and yields a notice exactly for a connected one, with the count left |
| PeerNode.Node.MarkPeerFailed | crates/nx-net/src/node.rs:954-967 | a failed write is one protocol step; a stale one changes nothing |
| PeerNode.Node.CleanUp | crates/nx-net/src/node.rs:1301-1328 | the reader's cleanup is one protocol step |
| PeerNode.Node.CloseTasks | crates/nx-net/src/node.rs:103-139 | closing takes all tasks out of the registry and latches admission |
| PeerNode.Node.HandBack | crates/nx-net/src/node.rs:140-150 | dropping a cancelled shutdown hands its tasks back, while it joins them and while it waits for the map lock |
| PeerNode.Node.ClearAll | crates/nx-net/src/node.rs:971-990 | the last region of a shutdown empties the map and closes every connection in it |
| PeerNode.Node.DropAll | crates/nx-net/src/node.rs:971-990 | dropping one by one returns one permit and raises one flag per connection |
| Endpoint.CanonicalIsStable | crates/nx-net/src/bootstrap.rs:565-601 | for every accepted endpoint, the canonical text is accepted and maps to itself, if and only if the host is not an undialable IPv4 literal with a final dot |
| Endpoint.HostIsStable | crates/nx-net/src/bootstrap.rs:578-596 | the same for the host alone, through the IPv4, the IPv6 and the DNS branch |
| Endpoint.ImageIsFixedOrRefused | crates/nx-net/src/bootstrap.rs:565-601 | a text that canonicalization produces maps to itself or is refused, the latter exactly when its host is an undialable IPv4 literal |
| Endpoint.DottedIsAcceptedOnce | crates/nx-net/src/bootstrap.rs:565-601 | every undialable IPv4 literal with a final dot is accepted with every port, and its canonical text is refused |
| Endpoint.SplitOfCanonical | crates/nx-net/src/bootstrap.rs:603-629 | host and port are read back from a canonical text, with brackets around a host that has colons |
| Endpoint.CanonicalHostIsText | crates/nx-net/src/bootstrap.rs:578-601 | a canonical host is a name or IPv4 literal of at most 253 letters, digits, hyphens and dots, or an IPv6 text with a colon and no bracket, and has no capital letter |
| Endpoint.CanonicalIsLower | crates/nx-net/src/bootstrap.rs:594-600 | no canonical text has a letter from A to Z |
| Endpoint.SameNameSameForm | crates/nx-net/src/bootstrap.rs:578-595 | two accepted hosts without colons have the same canonical form if and only if they are equal up to ASCII case and a final dot |
| EndpointCase.CaseIsIgnored | crates/nx-net/src/bootstrap.rs:565-601 | any two texts that differ only in the case of ASCII letters are accepted or refused alike and have the same canonical text, IPv6 literals included |
| Endpoint.QuadAccepted | crates/nx-net/src/bootstrap.rs:571-600 | an IPv4 literal with a port is accepted, as it stands, exactly when the port is not zero and the address is none of 0.0.0.0, 224.0.0.0 to 239.255.255.255 and 255.255.255.255 |
| Endpoint.Ipv6Accepted | crates/nx-net/src/bootstrap.rs:571-598 | a printed IPv6 address in brackets with a port is accepted, as it stands, exactly when the port is not zero and the address is not unspecified, multicast or link-local |
| Endpoint.NameExactly | crates/nx-net/src/bootstrap.rs:631-649 | a DNS name is 1 to 253 characters in which whatever lies between dots is a label of 1 to 63 letters, digits and inner hyphens |
| Endpoint.PortSpelling | crates/nx-net/src/bootstrap.rs:624-628 | a port may carry a plus sign and leading zeros, and is read exactly up to 65535 |
| Endpoint.SplitGives | crates/nx-net/src/bootstrap.rs:603-629 | whatever is split was a host in brackets, or one without a colon, then a colon and a port |
| Endpoint.SplitTakes | crates/nx-net/src/bootstrap.rs:603-629 | every such text is split into that host and that port |
| Texts.PartsAreStretches | crates/nx-net/src/bootstrap.rs:635-635 | splitting yields exactly the stretches between separators |
| Texts.NumberOfDigits | crates/nx-net/src/bootstrap.rs:624-628 | parsing a printed number gives the number back, in both bases |
| IpAddress.Ipv6ComesBack | crates/nx-net/src/bootstrap.rs:578-588 | every IPv6 address is read back from its printed text, IPv4-mapped addresses and shortened runs of zeros included |
| IpAddress.ParsedIsIpv6 | crates/nx-net/src/bootstrap.rs:578-588 | what the IPv6 parser accepts is eight segments of 16 bits, and its text has a colon |
| IpAddress.LongestRun | crates/nx-net/src/bootstrap.rs:588-588 | the run of zeros that printing shortens is the first of the longest |
| IpAddress.QuadComesBack | crates/nx-net/src/bootstrap.rs:578-588 | a dotted quad is read back from its printed text |
| IpAddress.OctetExactly | crates/nx-net/src/bootstrap.rs:578-578 | an octet is a number up to 255 in decimal without leading zeros |
| IpAddress.Ipv4Exactly | crates/nx-net/src/bootstrap.rs:578-578 | the IPv4 literals are exactly the printed addresses |
| IpAddress.GapExactly | crates/nx-net/src/bootstrap.rs:578-578 | a text with `::` is read as the groups before it, one or more zeros, and the groups behind it, eight in all |
| IpAddress.UndialableExactly | crates/nx-net/src/bootstrap.rs:579-581 | exactly which IPv4 addresses nobody can dial, in numbers |
| IpAddress.UndialableIpv6Exactly | crates/nx-net/src/bootstrap.rs:579-582 | exactly which IPv6 addresses nobody can dial, in numbers |
| IpAddress.PrintedInFull | crates/nx-net/src/bootstrap.rs:588-588 | an address without two zeros side by side is printed as its eight groups in hexadecimal |
| IpAddress.PrintedShortened | crates/nx-net/src/bootstrap.rs:588-588 | any other address that is not IPv4-mapped is printed with the first of its longest runs of zeros, and nothing else, left out |
| IpAddress.PrintedMapped | crates/nx-net/src/bootstrap.rs:588-588 | an IPv4-mapped address is printed as `::ffff:` and its dotted quad |
| BootstrapServer.ExchangeAccounts | crates/nx-net/src/bootstrap.rs:458-494 | after any exchange the cache holds exactly the leases written by a past exchange of that node, with its canonical endpoint and time + TTL, that no later word of the node, clear or expiry has ended, in whatever order clocks were read |
| BootstrapServer.ClearAccounts | crates/nx-net/src/bootstrap.rs:448-456 | a clear ends every lease |
| BootstrapServer.StandsBefore | crates/nx-net/src/bootstrap.rs:477-493 | in every history, of two cached nodes the one stands first whose present unbroken stay in the cache began with the earlier event |
| BootstrapServer.ExchangeKeepsStays | crates/nx-net/src/bootstrap.rs:464-494 | every exchange keeps the nodes in the order of their stays, whether it prunes, renews, admits, withdraws or fails |
| BootstrapServer.Server.StoredExactly | crates/nx-net/src/bootstrap.rs:464-488 | a lease is written exactly for an acceptable offer whose deadline can be represented, of a node whose lease is live or while fewer leases are live than the cache may hold |
| BootstrapServer.Server.Record | crates/nx-net/src/bootstrap.rs:464-494 | the cache and the history move on together, with the two errors exactly |
| BootstrapServer.ResponseInOrder | crates/nx-net/src/bootstrap.rs:508-530 | by position: a response lists endpoints by the first position that offers them, the seed's own first, never the requester's, and leaves out only what comes behind a full list |
| BootstrapServer.ResponseFits | crates/nx-net/src/bootstrap.rs:496-530 | a response names nobody twice, is full or complete, and never outgrows the reserved capacity, whose subtraction never underflows |
| BootstrapServer.Respond | crates/nx-net/src/bootstrap.rs:508-530 | the response is the advertised endpoint, then the distinct live endpoints of other nodes in admission order, cut at the limit |
| BootstrapServer.FirstOccurrencesHold | crates/nx-net/src/bootstrap.rs:508-530 | dropping repeats keeps exactly the same endpoints, each once |
| BootstrapServer.Server.constructor | crates/nx-net/src/bootstrap.rs:417-427 | a new seed has an empty cache within its configured bounds |
| BootstrapServer.Server.Exchange | crates/nx-net/src/bootstrap.rs:458-531 | what an exchange does to leases, order and history, its two errors exactly, and its response; capacity is kept, every endpoint offered or advertised is a canonical form, and `order` lists the cached nodes once each, by the event with which their present unbroken stay began |
| BootstrapServer.Server.Update | crates/nx-net/src/bootstrap.rs:464-494 | expired leases go first; a failed exchange changes nothing else; survivors keep their places and an admitted newcomer comes last |
| BootstrapServer.Server.Write | crates/nx-net/src/bootstrap.rs:477-488 | a known node has its lease renewed and keeps its position, a new one is appended while there is room, and nothing changes otherwise |
| BootstrapServer.Server.Forget | crates/nx-net/src/bootstrap.rs:490-493 | a withdrawal removes the node from both structures |
| BootstrapServer.Server.PruneExpired | crates/nx-net/src/bootstrap.rs:534-541 | exactly the leases that end after `now` survive, in their order |
| BootstrapServer.Server.Announce | crates/nx-net/src/bootstrap.rs:437-441 | the canonical text is advertised, or nothing changes |
| BootstrapServer.Server.Withdraw | crates/nx-net/src/bootstrap.rs:443-446 | nothing is advertised afterwards |
| BootstrapServer.Server.Clear | crates/nx-net/src/bootstrap.rs:448-456 | nothing is advertised or cached afterwards |
| Formats.NegotiateIsShared | crates/nx-net/src/node.rs:1457-1468 | the negotiated format is supported by both sides, there is none only when they share none, and the preferred one wins when shared |
| Formats.NegotiateExactly | crates/nx-net/src/node.rs:1450-1468 | bincode exactly when preferred here and supported there, else JSON when supported there, else nothing |
| Formats.NodesAlwaysAgree | crates/nx-net/src/node.rs:1450-1468 | two nodes of this implementation always find a format: bincode when both prefer it, else JSON |
| BootstrapQuery.Serve | crates/nx-net/src/node.rs:1138-1216 | exactly which hellos are acknowledged, which are answered with a version mismatch and which connections are dropped, what reaches the cache, and the acknowledgement's format, cluster, lifetime and candidates |
| BootstrapQuery.Normalize | crates/nx-net/src/bootstrap.rs:371-384 | candidates are accepted exactly when all are acceptable and no two mean the same endpoint |
| BootstrapQuery.CheckReply | crates/nx-net/src/bootstrap.rs:294-390 | the client accepts a reply exactly when version, cluster, format, frame, identity, counts, lifetime and candidates all pass, and exactly which refusals are not about an invalid response |
| BootstrapQuery.CandidatesAreImages | crates/nx-net/src/bootstrap.rs:496-530 | every candidate of a reachable seed is the canonical form of some endpoint |
| BootstrapQuery.ResponseIsClean | crates/nx-net/src/bootstrap.rs:371-384 | the list of a reachable seed passes the client's list checks if and only if no address in it is undialable, and then comes through unchanged |
| BootstrapQuery.CheckRequest | crates/nx-net/src/bootstrap.rs:245-258 | the client's own checks of a request |
| BootstrapQuery.ClusterIdExactly | crates/nx-net/src/bootstrap.rs:547-559 | a cluster name has 1 to 255 bytes in UTF-8 and no control character, those from 127 to 159 included |
| BootstrapQuery.AcceptableExactly | crates/nx-net/src/bootstrap.rs:306-370 | a reply passes the client's first checks exactly when it is an acknowledgement of version 5 for its cluster, in a format it speaks and that the frame had, within both counts, and with a lifetime above zero and within bounds |
| BootstrapQuery.MillisOf | crates/nx-net/src/node.rs:1207-1208 | a lifetime sent in milliseconds keeps its whole milliseconds and is zero exactly below one |
| BootstrapQuery.Query | crates/nx-net/src/bootstrap.rs:240-391 | for every request to every reachable seed: it is answered if and only if it is well-formed, arrives at an enabled seed of its cluster that trusts the client, its lease can be represented, and the reply comes back from a trusted seed; the answer is accepted if and only if the lifetime is at least a millisecond and within the client's bound and no address in the list sent is undialable; accepting returns the seed's list unchanged |
| BootstrapQuery.UndialableLeaseFailsQuery | crates/nx-net/src/bootstrap.rs:371-384 | a fresh seed that took one undialable address acknowledges another node's request, whose client refuses the reply as an invalid response |
| ByteOrder.PrefixIsContiguous | crates/nx-store/src/store.rs:239-241 | whatever lies between two keys with a prefix has it too |
| ByteOrder.AbovePrefixIsAboveAll | crates/nx-store/src/store.rs:239-241 | a key above a prefix without carrying it is above every key that does |
| ByteOrder.LessIsLexicographic | crates/nx-store/src/store.rs:239-241 | the order of keys is lexicographic: decided by the first byte that differs, or by length |
| OrderedStore.Store.ApplyBatch | crates/nx-store/src/store.rs:132-147 | after a batch a deleted key is gone, any other set key has its last value, the rest is unchanged |
| OrderedStore.Store.ScanPrefixPage | crates/nx-store/src/store.rs:191-218 | an offset page is the slice of the filtered, sorted scan |
| OrderedStore.Store.ScanPrefixPageAfter | crates/nx-store/src/store.rs:221-265 | a key-cursor page is the first `limit` rows the early-breaking loop reaches |
| OrderedStore.Store.KeysPrefixPageAfter | crates/nx-store/src/store.rs:355-399 | the same for keys alone |
| OrderedStore.ReachedIsSelect | crates/nx-store/src/store.rs:221-265 | for a fitting cursor, in every store, the loop reaches exactly the visible rows above the cursor |
| OrderedStore.UnfitCursorLosesKey | crates/nx-store/src/store.rs:235-241 | for every other cursor some store hides a visible key |
| OrderedStore.ResumeIsSuffix | crates/nx-store/src/store.rs:221-265 | resuming behind a listed key gives exactly the rest of the listing |
| OrderedStore.SelectHolds | crates/nx-store/src/store.rs:221-265 | a listing holds exactly the visible rows above the cursor, in order |
| OrderedStore.Store.ScanPrefixPageAfterBounded | crates/nx-store/src/store.rs:268-324 | a bounded scan returns a maximal beginning of the range within both budgets, or fails at a row that exceeds the byte budget by itself |
| OrderedStore.PushItem | crates/nx-store/src/store.rs:282-297 | one row more: refused as oversized, refused as not fitting, or taken, with the saturating sum |
| OrderedStore.ResultIsUnique | crates/nx-store/src/store.rs:268-324 | the budgets decide the outcome, so the scan fails exactly when an oversized row comes up |
| OrderedStore.BatchInBytes | crates/nx-store/src/store.rs:268-324 | in bytes: the keys and values of a batch are within the budget, one row more would not be, and a failing scan meets a row that alone is above it |
| ScanWalks.CursorPagesShowAll | crates/nx-store/src/store.rs:221-265 | on a fixed store, the pages that the key-cursor loop reaches concatenate to the filtered, sorted scan |
| ScanWalks.OffsetPagesAreCursorPages | crates/nx-store/src/store.rs:191-265 | on a fixed store, offset pages and the pages that the key-cursor loop reaches are the same |
| ScanWalks.BoundedWalkEnds | crates/nx-store/src/store.rs:268-324 | a walk by bounded batches ends with the whole prefix range if and only if no row of it exceeds the byte budget by itself; otherwise it stops at the first such row, and all it returned lies before it |
| ScanWalks.ScanToEnd | crates/nx-store/src/store.rs:268-324 | scanning on behind each batch always ends, and is such a walk |
| Base64Url.DecodeOfEncode | crates/nx-api/src/routes.rs:405-408 | decoding undoes encoding (base64url without padding, section 5 of RFC 4648) |
| Base64Url.EncodeOfDecode | crates/nx-api/src/routes.rs:405-408 | every accepted text is the encoding of what it decodes to |
| Base64Url.EncodeIsBits | crates/nx-api/src/routes.rs:405-408 | each character is the one of the 64-letter alphabet of section 5 of RFC 4648 that the next six bits number, with zero bits behind the end |
| KeyListing.ListKeys | crates/nx-core/src/control.rs:199-232 | the two errors exactly, with limits 1 to 100; a page is the first `limit` keys of the listing, with a cursor exactly when something is left |
| KeyListing.KeyTextRoundTrip | crates/nx-api/src/routes.rs:392-432 | key text is a bijection between keys of legal size and accepted texts, the empty key included |
| KeyListing.KeyTextSpellsBits | crates/nx-api/src/routes.rs:426-432 | the text of a key spells its bits six by six in that alphabet; the empty key is a tilde |
| KeyListing.DecodeExactly | crates/nx-api/src/routes.rs:392-413 | exactly which query texts stand for a key: an absent one for the empty prefix, a tilde for the empty key, and otherwise the encoding of a key of 1 to 8192 bytes |
| KeyListing.ListingExactly | crates/nx-core/src/control.rs:213-221 | a listing is ascending and holds exactly the keys with the prefix, above the cursor, that do not begin with `__nx/` |
| KeyListing.CursorsExactly | crates/nx-core/src/control.rs:206-211 | a cursor is refused exactly when it begins with `__nx/` or lacks the prefix |
| KeyListing.RenderExactly | crates/nx-api/src/routes.rs:73-77 | the page is a JSON object of an array, which cut at its commas gives the quoted items, and a cursor that is a string or null |
| KeyListing.LimitedJsonBody.Write | crates/nx-api/src/routes.rs:456-473 | a chunk is taken whole or refused, and a refusal is remembered |
| KeyListing.WriteAll | crates/nx-api/src/routes.rs:456-477 | however the output is cut, writing succeeds exactly when the whole fits |
| KeyListing.BoundedPage | crates/nx-api/src/routes.rs:435-454 | the largest beginning of the page that fits is kept, with the cursor moved back to its last item; an error only when even one item does not fit |
| KeyListing.BoundedKeyPage | crates/nx-api/src/routes.rs:415-424 | a page of keys is served exactly when all its keys are within 8 KiB |
| KeyListing.ListKeysRoute | crates/nx-api/src/routes.rs:238-268 | exactly which requests are invalid, and which fail: a valid one fails if and only if its page has a key above 8 KiB; a served page is a page of the listing, at most `limit` long (50 when none is given), in key text within 1 MiB |
| KeyListing.TrimmedPage | crates/nx-api/src/routes.rs:435-454 | trimming a page leaves a page |
| KeyWalk.ReceivedAscends | crates/nx-api/src/routes.rs:238-268 | following cursors over a changing store yields strictly ascending keys |
| KeyWalk.NothingIsMissed | crates/nx-api/src/routes.rs:238-268 | a visible key present at every request of a finished walk is received, whatever is inserted or deleted meanwhile |
| KeyWalk.ReceivedIsGenuine | crates/nx-core/src/control.rs:199-232 | every key received is visible and was in a store that was asked |
| KeyWalk.FixedStoreWalk | crates/nx-api/src/routes.rs:238-268 | on a fixed store a finished walk receives exactly the sorted listing |
| KeyWalk.FixedStoreWalkEnds | crates/nx-api/src/routes.rs:238-268 | on a fixed store a walk is finished after at most one request more than there are keys |
| KeyWalk.CursorComesBack | crates/nx-core/src/control.rs:206-211 | every cursor issued is decoded to the same key and accepted |
| KeyWalk.Request | crates/nx-api/src/routes.rs:238-268 | a request with an issued cursor fails if and only if one of the next `limit` keys exceeds 8 KiB; otherwise it is served and its cursor will be accepted |
| KeyWalk.FollowCursors | crates/nx-api/src/routes.rs:392-477 | a client handing cursor texts back verbatim performs such a walk over any stores, and meets an error only at a store with a key above 8 KiB among the next `limit` |
| KeyWalk.ListAll | crates/nx-api/src/routes.rs:238-268 | on a fixed store the client ends with the whole listing if and only if no listed key exceeds 8 KiB; otherwise it stops at the page that would show the first such key, having shown a beginning of the listing |
| Crdt.OpsCommute | crates/nx-core/src/sync_manager/apply.rs:309-468 | two operations that do not clash commute in every state |
| Crdt.ClashingOpsDiffer | crates/nx-sync/src/crdt/lww_register.rs:81-85 | clashing operations disagree already on an empty cell, so the condition is exact |
| Crdt.AssignCommutes | crates/nx-sync/src/crdt/lww_register.rs:43-61 | register assignments commute unless they tie in time and author with different values |
| Crdt.EntryOrder | crates/nx-sync/src/crdt/lww_map.rs:157-171 | winning a map entry is a strict total order in which the later time wins, and at equal times the greater author |
| Crdt.ApplyEntryCommutes | crates/nx-sync/src/crdt/lww_map.rs:146-155 | map entries commute always |
| Crdt.IncrementCommutes | crates/nx-sync/src/crdt/gcounter.rs:31-34 | saturating increments commute |
| Crdt.RgaCommutes | crates/nx-sync/src/crdt/rga.rs:73-108 | insertions and deletions commute unless one identifier carries two contents |
| Folding.OrderIsIrrelevant | crates/nx-core/src/sync_manager/apply.rs:45-72 | for commuting operations, two lists with the same elements have the same outcome |
| Replication.SameOutcome | crates/nx-core/src/sync_manager/apply.rs:45-72 | so operations without clashes have one outcome in every order |
| Replication.Prepare | crates/nx-core/src/sync_manager/apply.rs:45-72 | building a batch's updates beside the registries equals applying its new operations one by one |
| Replication.Replica.constructor | crates/nx-core/src/sync_manager/types.rs:92-100 | a new replica has applied and remembers nothing |
| Replication.Replica.ApplyRemoteOps | crates/nx-core/src/sync_manager/apply.rs:15-163 | a batch is applied whole or not at all; cells are always the outcome of what was applied, and the newest identifiers are remembered |
| Replication.Advance | crates/nx-core/src/sync_manager/apply.rs:45-163 | one more batch, computed beside the current state, leads to the state reached by all batches |
| Replication.Remember | crates/nx-core/src/sync_manager/replication.rs:513-550 | after planned evictions exactly the newest `limit` identifiers are remembered |
| Replication.PlannedIsOldest | crates/nx-core/src/sync_manager/replication.rs:513-535 | what is planned for eviction is exactly the oldest surplus |
| Convergence.AppliedOnce | crates/nx-core/src/sync_manager/apply.rs:45-72 | while the memory can hold all operations, none is applied twice, over any list of batches |
| Convergence.AppliesAll | crates/nx-core/src/sync_manager/apply.rs:45-72 | whatever its memory, a replica applies every operation it is sent, and no other |
| Convergence.RepeatIsIdle | crates/nx-core/src/sync_manager/apply.rs:309-468 | an operation on a register, map, set or array, applied twice in a row, changes nothing the second time, in every state |
| Convergence.RepeatChangesNothing | crates/nx-core/src/sync_manager/apply.rs:309-468 | in every history, repeating an operation leaves the outcome if and only if it adds to no counter, or to one that is full |
| Agreement.OutcomesAgree | crates/nx-core/src/sync_manager/apply.rs:309-468 | two lists of the same operations, repeats and clashes allowed, have the same outcome if and only if the same writes and insertions prevail in both and every counter slot adds up to the same below the cap |
| Agreement.RegisterPrevails | crates/nx-sync/src/crdt/lww_register.rs:43-61 | a register holds a write if and only if no write of it is later, or as late and by a greater author, and nothing that ties with another value came before it |
| Agreement.InsertPrevails | crates/nx-sync/src/crdt/rga.rs:73-88 | an array holds an insertion if and only if no insertion of the same element with other contents came before it |
| Agreement.ResolvedHasWinners | crates/nx-sync/src/crdt/lww_register.rs:81-85 | where every clash is beaten, the same writes prevail in every order |
| Agreement.OpenClashShows | crates/nx-sync/src/crdt/lww_register.rs:81-85 | two orders that start with either side of an unbeaten clash have different outcomes |
| Convergence.OutcomeIsExact | crates/nx-core/src/sync_manager/apply.rs:309-468 | a list has the outcome of each of its operations taken once, if and only if the same writes and insertions prevail and every repeat leaves the outcome |
| Convergence.EveryOrderAgrees | crates/nx-core/src/sync_manager/apply.rs:309-468 | all orders of some operations have one outcome if and only if every clash among them is beaten by a third write |
| Convergence.ReplicaIsExact | crates/nx-core/src/sync_manager/apply.rs:15-163 | for any limit, delivery and operations, a replica ends with the outcome of every operation taken once, if and only if the same writes and insertions prevail at it and it applied no counter operation again that still counted |
| Convergence.ReplicasConverge | crates/nx-core/src/sync_manager/apply.rs:15-163 | two replicas sent the same operations agree if and only if the same writes and insertions prevail at both and their counters add up alike; so they agree, whatever their limits and however deliveries were ordered, cut or repeated, when every clash is beaten and neither applied again a counter operation that still counted |
| Convergence.RepeatedExactly | crates/nx-core/src/sync_manager/replication.rs:513-550 | one more batch applies an operation again exactly when it brings one whose identifier has left the window |
| Convergence.ForgetfulReplicasDisagree | crates/nx-core/src/sync_manager/replication.rs:513-550 | for every limit and any operations, a counter operation that still counts, followed by `limit` others and redelivered, leaves two replicas in disagreement |
| Convergence.EveryDeliveryConverges | crates/nx-core/src/sync_manager/apply.rs:15-163 | every delivery of given operations leads to the same outcome if and only if every clash among them is beaten, and the memory can hold them all or none of them adds to a counter that is not full |
| Convergence.RecognisedWhileRecent | crates/nx-core/src/sync_manager/replication.rs:513-550 | in every history, a repeat is skipped if and only if fewer than `limit` operations were applied since its last time |
| CrdtReadings.CounterReading | crates/nx-sync/src/crdt/gcounter.rs:31-34 | a node's slot of a grow-only counter, and each of its two slots of a PN-counter, is the sum of its increments, capped at 64 bits |
| CrdtReadings.RegisterReading | crates/nx-sync/src/crdt/lww_register.rs:43-85 | a register holds one of its writes, beaten by none, and is unset only when nothing was written |
| CrdtReadings.LastWriterWins | crates/nx-sync/src/crdt/lww_register.rs:81-85 | last writer wins, in numbers and bytes: a register holds one of its writes, none of its writes is later, and none of the same time has a greater author; it is unset exactly when there is none |
| CrdtReadings.FirstWriteReading | crates/nx-sync/src/crdt/lww_register.rs:43-61 | among tying writes it holds the first |
| CrdtReadings.MapReading | crates/nx-sync/src/crdt/lww_map.rs:146-171 | a field holds the greatest of its entries, tombstones included |
| CrdtReadings.LastEntryWins | crates/nx-sync/src/crdt/lww_map.rs:157-171 | the same for a field, in numbers and bytes; at equal time and author a held value means that no removal and no larger value was written |
| CrdtReadings.OrSetReading | crates/nx-sync/src/crdt/orset.rs:20-61 | an element is in the set if and only if some addition of it was observed by no removal |
| CrdtReadings.RgaReading | crates/nx-sync/src/crdt/rga.rs:73-108 | the array holds for each identifier exactly its first insertion, and buries exactly what was deleted, in whatever order the two came |
| RgaOrder.OrderedIds | crates/nx-sync/src/crdt/rga.rs:175-191 | the listing is the sequence of all paths from the root in path order |
| RgaOrder.AppendChildren | crates/nx-sync/src/crdt/rga.rs:194-211 | the recursion ends in spite of parent cycles and appends exactly the part of the sequence below a parent |
| RgaOrder.PathsHold | crates/nx-sync/src/crdt/rga.rs:175-211 | the sequence holds every path once, parents before children, siblings by identifier |
| RgaOrder.EachOnce | crates/nx-sync/src/crdt/rga.rs:132-138 | every element whose chain of parents ends is listed exactly once, and no other is |
| RgaOrder.ParentComesFirst | crates/nx-sync/src/crdt/rga.rs:194-211 | a listed element whose parent is in the array stands behind it |
| RgaOrder.SiblingsInOrder | crates/nx-sync/src/crdt/rga.rs:183-191 | listed elements of one parent, or of none that is in the array, stand in the order of their identifiers |
| RgaOrder.SubtreeIsContiguous | crates/nx-sync/src/crdt/rga.rs:194-211 | between an element and one that hangs below it stand only elements that hang below it |
| RgaOrder.CompleteIffCausal | crates/nx-sync/src/crdt/rga.rs:175-191 | nothing is missing from the sequence if and only if parents can be ranked before children |
| RgaOrder.StableIffNobodyWaits | crates/nx-sync/src/crdt/rga.rs:73-88 | every later insertion keeps the relative order of the elements listed, if and only if no element names an unknown parent |
| RgaOrder.InsertKeepsOrder | crates/nx-sync/src/crdt/rga.rs:73-88 | later insertions keep the relative order of the elements already there, if none of these was waiting for a newcomer |
| RgaOrder.NobodyWaits | crates/nx-sync/src/crdt/rga.rs:177-181 | places are kept when no element already there names a newcomer as its parent |
| RgaOrder.LateParentHidesElement | crates/nx-sync/src/crdt/rga.rs:177-181 | any element that waits for its parent leaves the sequence when that parent arrives below it |
| DiscoveryWatch.Watch.constructor | crates/nx-core/src/discovery.rs:533-541 | a watch starts at its snapshot's revision |
| DiscoveryWatch.Watch.Recv | crates/nx-core/src/discovery.rs:547-580 | one receive, in place: exactly when it reports overflow and how much was missed, an invalid or closed watch, a gap or a contradicting view with both revisions, and what it delivers |
| DiscoveryWatch.InvAlways | crates/nx-core/src/discovery.rs:547-580 | along every run of a ring with arbitrary lag, accepted events are an unbroken piece of the log with consecutive revisions after the snapshot |
| DiscoveryWatch.InvalidatedForGood | crates/nx-core/src/discovery.rs:548-550 | an invalidated watch accepts nothing ever again |
| DiscoveryWatch.NothingAfterError | crates/nx-core/src/discovery.rs:547-580 | after a reported overflow or revision gap every receive fails and nothing more is accepted |
| DiscoveryWatch.AcceptedViewsFit | crates/nx-core/src/discovery.rs:553-563 | along every run, every complete view that was accepted carries the revision of its event |
| DiscoveryWatch.BurstIsReceivedOrReported | crates/nx-core/src/discovery.rs:547-580 | a burst to a watch that has seen all before is accepted event by event if the ring can hold it; if not, the next receive reports how many were lost |
| DiscoveryWatch.CloseIsReported | crates/nx-core/src/discovery.rs:577-577 | a watch that has seen all learns that its provider is gone |
| DiscoveryWatch.AcceptedIsProviderView | crates/nx-core/src/discovery.rs:343-354 | for a provider that keeps its contract, folding what was accepted over the snapshot gives its view at `last_revision`; no receive ever reports a revision, and an overflow only when the watch lags by more than the capacity |
| Histogram.RenderedIsConsistent | crates/nx-core/src/observability.rs:102-124 | for any number of recorders interleaved with a scrape step by step, cumulative buckets never decrease and never exceed the `+Inf` count |
| StaleScrape.ConsistentIffCountIsFresh | crates/nx-core/src/observability.rs:102-124 | for loads that may be stale: the cumulative buckets stay within the `+Inf` count in every run, if and only if no bucket is read at a moment more than two steps of the run later than the count |
| StaleScrape.FreshCountIsEnough | crates/nx-core/src/observability.rs:102-124 | in every run, buckets read at most two steps later than the count add up to no more than it |
| StaleScrape.StaleCountShows | crates/nx-core/src/observability.rs:102-124 | for any later reading of some bucket there is a run in which the buckets exceed the count |
| Histogram.QuietScrapeIsExact | crates/nx-core/src/observability.rs:117-124 | a scrape while no recorder is under way counts exactly the durations within each bound, and has their sum in nanoseconds and their number |
| Histogram.InvAlways | crates/nx-core/src/observability.rs:102-124 | every counter is exact for what recorders have done so far, and no read is ahead of it |
| Histogram.BucketsRise | crates/nx-core/src/observability.rs:19-35 | the fifteen bounds rise strictly from a tenth of a millisecond to five seconds, 1, 2.5 and 5 of each power of ten |
| Histogram.RenderBuckets | crates/nx-core/src/observability.rs:606-619 | the rendered lines are the cumulative sums, saturating at 64 bits |
| Histogram.DurationHistogram.constructor | crates/nx-core/src/observability.rs:95-100 | a new histogram is exact for no durations |
| Histogram.DurationHistogram.Record | crates/nx-core/src/observability.rs:102-115 | a complete recording adds one to the count, the duration to the sum and one to the first bucket whose bound takes it, and to no other |
| Histogram.Position | crates/nx-core/src/observability.rs:109-114 | the bucket is the first whose bound takes the duration |
| Framing.NextOfFrame | crates/nx-net/src/message.rs:556-600 | a frame is read back from the front of a stream, or refused exactly when it exceeds the limit |
| Framing.FrameLayout | crates/nx-net/src/message.rs:556-575 | a frame is four length bytes, most significant first, a format byte, 1 for JSON and 2 for bincode, and the payload |
| Framing.NextByBytes | crates/nx-net/src/node.rs:1685-1706 | one read by the bytes at the front of the stream, every error in its place |
| Framing.SendableArrives | crates/nx-net/src/node.rs:1695-1701 | exactly the frames within the limit of the receiver arrive |
| Framing.Reader.ReadMessage | crates/nx-net/src/node.rs:1685-1706 | one read: length, limit, payload, format byte, message, each error in its place |
| Framing.ReadAll | crates/nx-net/src/node.rs:1685-1706 | the concatenation of any list of frames within the limit is read back in order and used up, for any codec that round-trips |
| Framing.PublicMessages | crates/nx-net/src/message.rs:438-554 | public to wire and back is the identity; the reverse succeeds exactly on messages without bootstrap variants and is its inverse |
| Framing.ConversionsKeepMessages | crates/nx-net/src/message.rs:438-554 | neither conversion changes the kind of a message or any of its values |
| Framing.PublicCodecRoundTrips | crates/nx-net/src/message.rs:473-554 | reading public messages through the wire type keeps the round trip |
| GuestRows.ParseScanRows | crates/nx-sdk/src/db.rs:78-104 | a buffer is accepted exactly when it is the encoding of the rows returned; saturating offsets never read out of range |
| GuestRows.ParseKeys | crates/nx-sdk/src/db.rs:106-127 | the same for keys |
| GuestRows.ReadU32 | crates/nx-sdk/src/db.rs:62-76 | a number is read exactly when four bytes are left |
| GuestRows.EncodeScanRows | crates/nx-core/src/host_api/db.rs:115-130 | the host's encoding, refused exactly when a count or length exceeds 32 bits |
| GuestRows.BufferEnds | crates/nx-core/src/host_api/db.rs:115-130 | a buffer starts with the number of rows, least significant byte first, and ends where the last row does |
| GuestRows.BufferLengths | crates/nx-core/src/host_api/db.rs:115-130 | each row stands behind the one before and starts with the lengths of its key and of its value |
| GuestRows.BufferKeys | crates/nx-core/src/host_api/db.rs:115-130 | the key follows |
| GuestRows.BufferValues | crates/nx-core/src/host_api/db.rs:115-130 | the value follows the key |
| GuestRows.KeyBufferKeys | crates/nx-sdk/src/db.rs:106-127 | in a buffer of keys each key stands behind its length |
| GuestRows.KeyBufferLengths | crates/nx-sdk/src/db.rs:106-127 | and each length behind the key before |
| Endian.Bytes32 | crates/nx-net/src/message.rs:571-571 | the four bytes of a number, in both orders |
| Endian.Number32 | crates/nx-net/src/node.rs:1695-1695 | the number of four bytes, in both orders |
| GuestRows.AcrossBoundary | crates/nx-core/src/host_api/db.rs:115-130 | what the host encodes the guest reads back |
| GradientWalk.GradientPath | examples/distributed_ants/render_paths.py:114-146 | for any trail, start, goal and grid the walk arrives exactly when both coordinates are attainable within the step cap, and then in Manhattan-distance steps, each to the strongest neighbour that gains ground; whether it arrives or not, every step goes to the one cell chosen there, and it ends at the goal, at a cell without neighbours or at the cap |
| GradientWalk.InGridWalkIsSimple | examples/distributed_ants/render_paths.py:114-146 | inside the grid the walk always arrives, repeats no cell and never leaves the grid |
| GradientWalk.NextCell | examples/distributed_ants/render_paths.py:131-141 | the chosen neighbour: not visited while there is one that is not, gaining ground while there is one that does, then most pheromone, least distance, first direction; there is none exactly for a cell without neighbours |
| GradientWalk.Neighbors | examples/distributed_ants/render_paths.py:96-107 | exactly the adjacent cells inside the grid, in the order of the four directions |
| GradientWalk.Best | examples/distributed_ants/render_paths.py:138-141 | the first of the cells with the highest score |
| GradientWalk.Eligible | examples/distributed_ants/render_paths.py:131-137 | the cells to choose from: the neighbours not visited, or all of them when all are, and of these the ones that gain ground, or all when none does, in the order of the four directions |
| GradientWalk.NoneIsZero | examples/distributed_ants/render_paths.py:138-141 | a cell without pheromone counts as having none |

## Left out

- TLS, certificates and peer identity: a verdict passed in as a boolean.
- Sockets, timeouts, scheduling and signals: only lock-protected regions and nondeterministic success or failure.
- `PeerConnected` and operation events, dropping a `Node` without shutdown, ping and pull traffic: no effect on the shared structures.
- Closing of the semaphore wakes its waiters: a waiter that is refused is an ended dial.
- The attempt guard, the attempt slot, the taking of a permit, the shutdown flag and the closing of the slots are steps of the protocol only; `PeerNode.dfy` has no methods for them, which would be easy members.
- Mutex poisoning in the bootstrap seed: no modelled code panics while holding the locks.
- JSON and wincode encodings: codecs are parameters that round-trip, and the writer of a public message is taken to write its wire form.
- sled: an ordered list of rows with atomic batches; writes that arrive while a single scan runs are not modelled, writes between requests are.
- `scan_prefix` without paging, `keys_prefix_page` by offset (the key-only twin of `scan_prefix_page`), get, set, delete and write leases of the store.
- `ModuleRegistry` and `list_peers`: the same look-ahead paging over other lists.
- HTTP routing, authentication, middleware and the other routes: framework plumbing.
- State-based `merge` of the data types: the sync manager applies operations, and their convergence is what is modelled.
- Persistence, the operation log, anti-entropy and reconnection of the sync manager: a batch that cannot be persisted is a boolean.
- The visible values of the growable array: the listing with its buried elements filtered out.
- OrderedStore.BatchInBytes: stated for byte budgets below 2^64 - 1; at that budget the saturating sums never exceed it, and no store reaches it.
- Histogram.RenderedIsConsistent: steps are sequentially consistent, while the code uses relaxed atomics; `StaleScrape.dfy` treats loads that return older values.
- StaleScrape.ConsistentIffCountIsFresh: loads may be stale, but the increments of different counters are taken in one total order, which relaxed atomics do not promise; without any such order a scrape can pair every reading with every other.
- StaleScrape.FreshCountIsEnough: takes the increments of different counters in one total order, for the same reason.
- Histogram.InvAlways: assumes sequentially consistent steps and counters that do not wrap around.
- BootstrapQuery.Query: whether a hello arrives (a free query slot, the seed's certificate, a free connection slot at the seed's listener, the seed's frame limit), whether the reply fits the client's frame limit, and both verdicts on identity are booleans, because they are decided outside the modelled code.
- DiscoveryWatch.Watch.Recv: does not model waiting; it is called when a receive would return.
- Observation times inside discovery snapshots, other discovery providers and the candidate registry.
- `update_wasm_module` and the other metrics, WASM execution, the CLI and configuration, HTML and SVG rendering.
