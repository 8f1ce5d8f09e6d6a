# Verified model of rout5

rout5 is a home router in Go. This project models its stateful and text-handling
cores in Dafny and proves what they promise, for all inputs and over whole runs.

| file | models |
|---|---|
| `LeaseTable.dfy`, `LeaseCalls.dfy`, `LeaseRuns.dfy`, `LeaseReach.dfy`, `LeaseRaces.dfy`, `WirePackets.dfy`, `Handler.dfy` | the DHCPv4 server's lease allocator: the table as a value, each call field by field, properties of whole runs, tables a server comes to from the empty one, calls interrupted by hostnames set from outside, packets as they arrive, and the mutable handler that computes it |
| `Addresses.dfy`, `MacPrefixes.dfy` | the address pool; hardware addresses as text and the lease-period quirk with its binary search |
| `PacketFilter.dfy` | the 33-instruction BPF program, the BPF machine, and the expression it was compiled from |
| `PortForward.dfy`, `Firewall.dfy`, `ForwardingText.dfy` | the nftables rules generated from port forwardings, the register machine that runs them, their all-or-nothing application, and what the configured text does to packets |
| `Interfaces.dfy` | bringing links to their configured names and addresses |
| `PacketRing.dfy`, `CaptureSession.dfy`, `CaptureGaps.dfy` | the ring of recent packets, its hand-off to SSH sessions as a concurrent system, and the packets a session misses |
| `ListenerPool.dfy` | listeners for a changing set of hosts, and their deaths: as a system of steps, and as objects that take these steps |
| `DhcpClient.dfy` | the DHCPv4 client |
| `Diagnostics.dfy` | the tree of dependent probes and its first error |
| `Bytes.dfy`, `Numerals.dfy`, `NetText.dfy` | bytes and big-endian fields; number parsing with base prefixes; subnet masks and ports as text |

How the parts fit together. Code that updates state in place is a class whose
methods are proved to compute functions on values: `Handler.Handler.Serve`
against `LeaseTable.Step`, `ListenerPool.Pool` against `ListenerPool.Next`,
`DhcpClient.Client` against `DhcpClient.Do`, `Interfaces.System` against
`Interfaces.Apply`, `PacketRing.PacketRingBuffer` against `PacketRing.Written`.
The theorems are about those functions and their runs. Capture sessions run
concurrently and are modelled as a system of steps only. Times are integers in
nanoseconds, 0 standing for Go's zero time.
Every reading of a clock and every random choice is a parameter of the call that
makes it, so the theorems hold for all of them; a run only assumes that the
server's clock does not go back. Addresses are 32-bit numbers, and the two
library helpers are `IPRange(a, b) = b - a + 1` and `IPAdd(a, n) = a + n`
modulo 2^32. A load outside the packet ends a BPF program with 0.

Where the code does not do what it seems meant to do, the model keeps the code
and a lemma says exactly when it matters:

- A full lease table refuses a new client even when some leases have expired
  (`LeaseTable.FindLeaseMisses`), and such tables are reached
  (`LeaseReach.FullTableRefuses`).
- Renaming a client that has no lease dereferences nil exactly when the slot its
  index entry names, 0 if it has none, is empty, and is refused otherwise
  (`LeaseTable.RenameExact`). A takeover leaves such an entry behind
  (`LeaseReach.RenameCrashes`).
- A hostname set with success while a request of the same client is being
  answered is lost if the names of its old lease were read already
  (`LeaseRaces.OverrideLostExactly`).
- A Decline is not persisted (`LeaseTable.DeclineOutdatesSnapshot`,
  `LeaseRuns.PublishedIsCurrent`, `LeaseReach.DeclineIsNotPublished`). The program writes its leases to a file and
  never reads them back (`cmd/dhcp4d/dhcp4d.go:218-300`), so the results about
  restarts are for a caller that hands them to `SetLeases`, as only tests do. For
  such a caller the server after the restart keeps the same leases, and only a
  rename can show the difference (`LeaseRuns.RestartIsInvisible`,
  `LeaseReach.RestartShows`).
- The server's pool leaves the /24, or includes the broadcast address, unless
  the server's last octet is at most 24 (`Addresses.PoolIsUsable`,
  `LeaseReach.GrantsAreUsable`); an offer of an address that wrapped around is
  never honoured (`LeaseRuns.OfferIsHonoured`).
- Port numbers with a leading zero are read as octal (`Numerals.ReadsAsDecimal`).
- A listener that dies late removes the entry of the listener that replaced it
  (`ListenerPool.DeathKeepsExact`, `ListenerPool.LateDeathLosesListener`).
- A packet that arrived before a session opened its handle, and was not in the
  ring yet when the ring was copied, is never sent to the session, however large
  the ring (`CaptureGaps.NoGapExactly`, `CaptureGaps.OvertakenIsMissed`).
- An ACK whose mask option has one to three bytes makes the client panic after
  it stored the lease and the address (`DhcpClient.CrashesExactly`).
- Two links that are to swap names are never renamed (`Interfaces.SwapFails`).
- Entries of the interface configuration that share an address can undo each
  other (`Interfaces.SharedAddressIsNotIdempotent`); `Interfaces.IdempotentExactly`
  says for which configurations applying twice is applying once.

## Model

| member | source | states |
|---|---|---|
| LeaseRuns.LeaseIsExclusive | dhcp/dhcp4d/dhcp4d.go:174-377 | over any run from a valid table: after a client is ACKed an address for a period, nobody else is ACKed or offered it before the period has passed, unless the client declined or was ACKed another address |
| LeaseRuns.ExclusivityIsTight | dhcp/dhcp4d/dhcp4d.go:48-50 | right after the period another client's request for the address is granted, unless the lease is permanent |
| LeaseRuns.RenewalIsGranted | dhcp/dhcp4d/dhcp4d.go:174-200 | over the same stretch, the client's own request for that address is answered with the same ACK |
| LeaseRuns.OfferIsHonoured | dhcp/dhcp4d/dhcp4d.go:290-368 | a later request for an offered address is ACKed, if no other client was ACKed it or declined it while holding its slot; refused exactly when the address wrapped around or is 0.0.0.0 |
| LeaseCalls.RequestExactly | dhcp/dhcp4d/dhcp4d.go:322-368 | a request for another server is passed over; any other is acknowledged exactly when the client may have the address, and then every field of its new lease, its hostname included, and every other lease are as stated |
| LeaseCalls.DiscoverExactly | dhcp/dhcp4d/dhcp4d.go:290-319 | the offer is the client's own unexpired lease, else the address asked for if it may have it, else the random slot if vacant, else the first vacant one, and nothing when every slot has an entry |
| LeaseCalls.DeclineExactly | dhcp/dhcp4d/dhcp4d.go:369-400 | a Decline is not answered and only ends the client's own lease; other messages do nothing |
| LeaseCalls.PermanentKeepsName | dhcp/dhcp4d/dhcp4d.go:340-350 | a permanent lease keeps its hostname over every run until its client declines or is renamed, whatever hostnames its requests carry; only an override that differs takes over |
| LeaseRuns.RestartIsInvisible | dhcp/dhcp4d/dhcp4d.go:116-153 | a server loaded with the leases another one published keeps the same leases, call for call, and gives the same answers except to a rename without a lease that only one of the two finds an entry for |
| LeaseRuns.PublishedIsCurrent | dhcp/dhcp4d/dhcp4d.go:369-400 | between two ACKs or renames the published list is the current table exactly while the last Decline of each lease's client wrote the expiry the lease had |
| LeaseReach.RestartShows | dhcp/dhcp4d/dhcp4d.go:116-153 | after any takeover of a slot other than 0, renaming the client that lost it is refused, and crashes after a reload |
| LeaseReach.RenameCrashes | dhcp/dhcp4d/dhcp4d.go:141-146 | the rename crashes on the empty table, is refused after a takeover, and crashes when the new holder has moved on; all three tables are reached |
| LeaseReach.DeclineIsNotPublished | dhcp/dhcp4d/dhcp4d.go:369-400 | after any grant, a Decline by the client right away leaves the published list out of date |
| LeaseReach.FilledHolds | dhcp/dhcp4d/dhcp4d.go:322-361 | k requests from k devices, each for an address of its own, leave exactly their k leases |
| LeaseReach.FullTableRefuses | dhcp/dhcp4d/dhcp4d.go:155-172 | in the full table so reached, once a lease has expired, a newcomer's Discover stays unanswered while its request for that address is granted |
| LeaseReach.GrantsAreUsable | dhcp/dhcp4d/dhcp4d.go:88-99 | all addresses offered or acknowledged in all runs are host addresses of the server's /24 other than its own exactly when its last octet is at most 24 |
| LeaseReach.GrantIsUsable | dhcp/dhcp4d/dhcp4d.go:315-377 | with such a last octet this holds for any call on any valid table |
| LeaseRuns.PermanentStays | dhcp/dhcp4d/dhcp4d.go:340-361 | a client with a permanent lease that never declines always holds exactly one lease, a permanent one |
| LeaseRuns.OverrideStays | dhcp/dhcp4d/dhcp4d.go:340-361 | a hostname override survives renewals, moves and declines until the next SetHostname or until another client takes over the slot, and any ACK makes it the hostname |
| LeaseRaces.RequestIsUndivided | dhcp/dhcp4d/dhcp4d.go:322-368 | however hostnames are set between its locked sections, a request answers and changes the table as one undivided call after those set in time |
| LeaseRaces.OverrideLostExactly | dhcp/dhcp4d/dhcp4d.go:340-361 | a hostname set with success during the client's own request is the override of the lease that results, except when the names were read already: then the lease keeps the name it was filled with |
| LeaseRaces.OverrideCanBeLost | dhcp/dhcp4d/dhcp4d.go:340-361 | every granted request of a client with an unexpired lease has such an interleaving |
| LeaseRaces.DiscoverIsUndivided | dhcp/dhcp4d/dhcp4d.go:290-313 | hostnames set between the sections of a Discover do not change what is offered |
| LeaseRuns.RunKeepsInv | dhcp/dhcp4d/dhcp4d.go:119-128 | the index invariant holds throughout every run |
| WirePackets.AskingIsSpelling | dhcp/dhcp4d/dhcp4d.go:283-286 | the address a packet asks for is the one it spells in its option, or else in its client address field |
| WirePackets.MeantForServer | dhcp/dhcp4d/dhcp4d.go:323-325 | a packet is for this server unless its server identifier is something else than the server's four bytes, plain or IPv4-mapped |
| WirePackets.DevicesAreClients | dhcp/dhcp4d/dhcp4d.go:287 | packets come from the same client exactly when they carry the same hardware address |
| LeaseTable.StepKeepsInv | dhcp/dhcp4d/dhcp4d.go:282-377 | every call keeps slots numbered, in range and indexed by their holder |
| LeaseTable.OneSlotPerClient | dhcp/dhcp4d/dhcp4d.go:251-260 | no client holds two slots, whatever stale index entries there are |
| LeaseTable.LeaseHWIsTheSlot | dhcp/dhcp4d/dhcp4d.go:251-260 | looking a client up finds the entry of the one slot it holds, and nothing else |
| LeaseTable.IndexIsInvisible | dhcp/dhcp4d/dhcp4d.go:67-68 | tables with the same leases keep the same leases, and answer alike exactly except for a rename without a lease that only one finds an entry for |
| LeaseTable.ReloadRestores | dhcp/dhcp4d/dhcp4d.go:119-139 | loading the leases handed to the callback, in any order, restores every lease |
| LeaseTable.DeclineOutdatesSnapshot | dhcp/dhcp4d/dhcp4d.go:369-374 | the persisted list is out of date after a Decline exactly when the Decline changed an expiry |
| LeaseTable.LoadIsValid | dhcp/dhcp4d/dhcp4d.go:119-128 | a list without repetitions keeps every lease listed, and is one the server may start from exactly when its slots are in range |
| LeaseTable.LoadKeepsLast | dhcp/dhcp4d/dhcp4d.go:119-128 | with repetitions, the last lease listed for a slot is kept and a client is indexed under its last one |
| LeaseTable.FindLeaseExact | dhcp/dhcp4d/dhcp4d.go:155-172 | for every random choice: -1 exactly when all 230 slots have an entry, otherwise a slot in range that is absent or expired |
| LeaseTable.FindLeaseMisses | dhcp/dhcp4d/dhcp4d.go:159 | nothing is found although a slot could be had exactly when the table is full and some entry has expired |
| LeaseTable.DiscoverIsSilent | dhcp/dhcp4d/dhcp4d.go:290-313 | a Discover stays unanswered exactly when the client has no unexpired lease, cannot have what it asks for, and every slot has an entry |
| LeaseTable.FullByCount | dhcp/dhcp4d/dhcp4d.go:159 | counting entries decides whether every slot is taken |
| LeaseTable.RenameExact | dhcp/dhcp4d/dhcp4d.go:141-153 | setting a hostname succeeds exactly for a client holding an unexpired lease and changes only its two names; it dereferences nil exactly when the slot looked up is empty |
| Handler.Handler.Serve | dhcp/dhcp4d/dhcp4d.go:282-377 | one call takes the table one step with the specified answer, and every ACK and rename publishes a snapshot of the table |
| Handler.Handler.HandleRequest | dhcp/dhcp4d/dhcp4d.go:322-368 | the maps and lease objects after a request stand for the specified table |
| Handler.Handler.SlotToOffer | dhcp/dhcp4d/dhcp4d.go:290-313 | the slot a Discover is offered |
| Handler.Handler.FindLease | dhcp/dhcp4d/dhcp4d.go:155-172 | the loop finds the specified slot |
| Handler.Handler.CanLease | dhcp/dhcp4d/dhcp4d.go:174-200 | the slot of a requested address, if this client may have it |
| Handler.Handler.LeaseHW | dhcp/dhcp4d/dhcp4d.go:251-260 | the client's lease object, shared with the table |
| Handler.Handler.ExpireLease | dhcp/dhcp4d/dhcp4d.go:381-400 | only the client's own lease gets the wall clock's time as expiry |
| Handler.Handler.SetHostname | dhcp/dhcp4d/dhcp4d.go:141-153 | only the client's own lease is renamed, in place |
| Handler.Handler.SetLeases | dhcp/dhcp4d/dhcp4d.go:119-128 | the maps hold the listed lease objects, later ones overwriting earlier ones; what makes the result valid |
| Handler.Handler.CallLeasesLocked | dhcp/dhcp4d/dhcp4d.go:130-139 | the callback is given every lease once, in some order |
| Handler.Handler.constructor | dhcp/dhcp4d/dhcp4d.go:88-113 | a new handler has an empty table and a pool that starts after the server |
| Addresses.PoolIsUsable | dhcp/dhcp4d/dhcp4d.go:88-99 | all 230 pool addresses are host addresses of the server's /24 other than its own exactly when its last octet is at most 24 |
| Addresses.PoolBytes | dhcp/dhcp4d/dhcp4d.go:88-99 | the pool starts at the server's four bytes with the last one alone incremented, and slots are added to that byte |
| Addresses.SlotOfAddress | dhcp/dhcp4d/dhcp4d.go:315-319 | slot to address to slot is the identity exactly when the addition does not wrap |
| Addresses.AddressOfSlot | dhcp/dhcp4d/dhcp4d.go:179-182 | address to slot to address is the identity |
| MacPrefixes.LeasePeriodForDevice | dhcp/dhcp4d/dhcp4d.go:262-279 | decoding and binary search give an hour exactly to six-byte addresses whose prefix the table lists |
| MacPrefixes.Search | dhcp/dhcp4d/dhcp4d.go:272-274 | the search ends at the first entry that is not below the wanted bytes |
| MacPrefixes.TableAscends | dhcp/dhcp4d/quirks.go:5-73 | the table is strictly ascending, as the search needs |
| MacPrefixes.LeasePeriodOfMac | dhcp/dhcp4d/dhcp4d.go:262-279 | for the printed form of any hardware address: an hour if it has six bytes and the first three are listed, and the configured period otherwise |
| MacPrefixes.MacRoundTrip | dhcp/dhcp4d/dhcp4d.go:263 | printing, stripping colons and decoding gives back every hardware address |
| MacPrefixes.MacText | dhcp/dhcp4d/dhcp4d.go:287 | the text of an address has the two hex digits of each byte at its place, with colons between |
| MacPrefixes.MacTextIsInjective | dhcp/dhcp4d/dhcp4d.go:287 | clients with different hardware addresses have different names |
| PacketFilter.ProgramMeansExpression | cmd/captured/GENERATED_filterexpr.go:5-39 | on every packet of every length the program returns 1500 when the expression holds and 0 otherwise |
| PacketFilter.PortAtoms | cmd/captured/filterexpr.go:35 | the expression, with its four port atoms combined, in terms of header fields |
| PacketFilter.ProgramWellFormed | cmd/captured/GENERATED_filterexpr.go:5-39 | every jump is forward and inside, and the program always returns |
| PacketFilter.CapturesUdpFrame4 | cmd/captured/filterexpr.go:32-35 | an IPv4 UDP frame with any options and payload is captured exactly when it is a first fragment with a DHCP port |
| PacketFilter.CapturesFrame6 | cmd/captured/filterexpr.go:32-35 | an IPv6 frame is captured exactly when ICMPv6 follows, directly or behind a fragment header, or UDP with a DHCP port follows directly |
| PortForward.ChainMeansForwardings | netconfig/netconfig.go:543-585 | the generated chain translates each packet to the target of the first entry that covers it, and leaves the others alone |
| PortForward.RuleMeansEntry | netconfig/netconfig.go:409-509 | one generated rule matches exactly the interface, protocol and port range of its entry |
| PortForward.NameMatches | netconfig/netconfig.go:403-407 | a configured name matches exactly the device of that name |
| PortForward.LongNamesCollide | netconfig/netconfig.go:403-407 | names of 16 bytes or more are told apart by their first 16 bytes only |
| ForwardingText.TextMeansForwarding | netconfig/netconfig.go:543-585 | a configuration written with protocol names, decimal ports and an IPv4 target is applied, and sends each packet to the target of the first forwarding meant for it: TCP for "" and tcp, UDP for udp, both for a list of both |
| ForwardingText.ConfigurationIsRead | netconfig/netconfig.go:555-582 | each written forwarding is read as one entry per protocol named, in order, with protocol number, ports and target |
| ForwardingText.ReadingFailsExactly | netconfig/netconfig.go:555-575 | reading fails exactly when some forwarding has ports that cannot be read or names another protocol |
| Firewall.ApplyFirewall | netconfig/netconfig.go:627-672 | the new address translation rules are in force exactly when every entry parses and has an IPv4 destination; otherwise the old ones stay |
| Firewall.ApplyPortForwardings | netconfig/netconfig.go:543-585 | queues one rule per protocol of each entry, in order, and fails exactly when an entry does not parse |
| Firewall.FirewallMeans | netconfig/netconfig.go:627-672 | what an applied configuration does to packets in both directions |
| Firewall.BatchEffect | netconfig/netconfig.go:628-672 | the queued commands leave the wanted rules whatever was there before |
| Interfaces.LookupExactly | netconfig/netconfig.go:311-349 | the entry of a link is the last one with its hardware address, own or spoofed, if there is one, otherwise the last one with its name, and there is none exactly when none has either |
| Interfaces.ApplyAchieves | netconfig/netconfig.go:328-399 | an application succeeds exactly when every link can be configured; then each has its entry's name, spoofed address and IP address and is up, and links without an entry are untouched; otherwise it stops at the first that cannot, which got as far as stated |
| Interfaces.SwapFails | netconfig/netconfig.go:354-359 | two links that are to swap names are left as they were, with an error |
| Interfaces.IdempotentExactly | netconfig/netconfig.go:298-401 | applying a configuration twice is applying it once, errors included, for all links, exactly when each spoofing entry's link, once configured, is looked up as an entry that changes nothing more |
| Interfaces.ApplyIsIdempotent | netconfig/netconfig.go:298-401 | that condition holds when names and addresses are not shared between entries |
| Interfaces.System.ApplyInterfaces | netconfig/netconfig.go:310-399 | the loops build both lookup maps and update link after link up to the first error |
| Interfaces.LookupIsStable | netconfig/netconfig.go:337-352 | a link, once configured, is looked up as the same entry again |
| Interfaces.ByHardwareAddrFinds | netconfig/netconfig.go:311-316 | the map by hardware address finds the entry that has the address, spoofed or not |
| Interfaces.SharedAddressIsNotIdempotent | netconfig/netconfig.go:313-316 | for any two addresses: with one entry's spoofed address being another's hardware address, the second run takes the link for the other entry |
| PacketRing.SnapshotIsLastPackets | cmd/captured/captured.go:80-101 | after any writes the snapshot is the last min(k, n) packets, oldest first |
| PacketRing.PacketRingBuffer.WritePacket | cmd/captured/captured.go:86-91 | a write replaces the oldest slot and makes it the newest |
| PacketRing.PacketRingBuffer.PacketsLocked | cmd/captured/captured.go:93-101 | the traversal lists the packets present, oldest first |
| CaptureSession.SentOnceInOrder | cmd/captured/ssh.go:85-105 | in every interleaving no packet is sent twice to a session, and packets of one interface are sent in order of arrival |
| CaptureSession.SessionConserves | cmd/captured/ssh.go:85-105 | what a session sends and still holds of an interface is the copied ring followed by what its handle received |
| CaptureSession.CanDrain | cmd/captured/ssh.go:95-105 | from every reachable state a running session can go on to send everything it holds |
| CaptureSession.LockCanBeFreed | cmd/captured/ssh.go:85-88 | whoever holds the ring's lock can give it up at once, after which the main program can write |
| CaptureGaps.SessionMissesExactly | cmd/captured/ssh.go:85-88 | a packet is delivered exactly when it was among the last n written when the ring was copied, or arrived after its interface's handle was opened and was not dropped there |
| CaptureGaps.MissedBecause | cmd/captured/ssh.go:85-88 | the causes of a miss: from before the handle was open, a packet the main program lost, had not written yet or had overwritten; from then on, a dropped copy |
| CaptureGaps.NoGapExactly | cmd/captured/ssh.go:85-88 | nothing the kernel handed over and the ring had room for is missed exactly when, at the copy, the main program was not behind on packets from before the opening |
| CaptureGaps.MissedForever | cmd/captured/ssh.go:85-105 | a packet missed once the ring was copied is never delivered later |
| CaptureGaps.OvertakenIsMissed | cmd/captured/captured.go:137-143 | for every ring size and every continuation, a packet is written to the ring and never sent to the session |
| CaptureSession.NextKeepsInv | cmd/captured/captured.go:43-73 | every step of the main program, the kernel and the sessions keeps these orders |
| CaptureSession.LockedPhases | cmd/captured/ssh.go:85-88 | the ring is locked exactly while one session opens its handles and copies the ring |
| ListenerPool.Pool.ListenAndServe | multilisten/multilisten.go:45-75 | one Serve step of the run model; afterwards exactly the given hosts are served, old ones by their old listener, each new one by one fresh started listener, and exactly the vanished listeners are closed |
| ListenerPool.Pool.Died | multilisten/multilisten.go:61-67 | the end of a live or closed listener is one RecordDeath step of the run model, and removes the entry of its host |
| ListenerPool.ServeKeepsExact | multilisten/multilisten.go:45-75 | serving keeps the pool equal to the live listeners |
| ListenerPool.DeathKeepsExact | multilisten/multilisten.go:61-67 | recording a death keeps the pool exact precisely when no other listener was registered for the host |
| ListenerPool.StaysExactWhenTimely | multilisten/multilisten.go:45-75 | the pool is exact all along a run if and only if each closed listener's death is recorded before its host is served again |
| ListenerPool.LateDeathLosesListener | multilisten/multilisten.go:61-67 | otherwise a live listener drops out of the pool |
| DhcpClient.ExchangeShape | dhcp/dhcp4/dhcp4.go:181-257 | field by field: a DISCOVER is sent exactly without a lease; a REQUEST repeats transaction, address and first server identifier of the lease held or of the offer that decides; the reads decide the outcome, and a failed write ends the exchange |
| DhcpClient.ServerIDExactly | dhcp/dhcp4/dhcp4.go:59-66 | the server identifier repeated is the first such option, and none if there is none |
| DhcpClient.LeaseTransitions | dhcp/dhcp4/dhcp4.go:128-171 | an ACK replaces the lease within its transaction, a NAK drops it, every other error keeps lease and configuration; which error is recorded, what is returned, and what a release sends |
| DhcpClient.ConfigurationFollowsAcks | dhcp/dhcp4/dhcp4.go:141-157 | over any calls, a lease held and the address are those of the last ACK accepted, and, ACKs with a short mask aside, the renewal is due after the latest ACK's time from the end of its call, and mask, router and DNS are those of the latest ACK that carried them |
| DhcpClient.CrashesExactly | dhcp/dhcp4/dhcp4.go:141-164 | a call panics exactly when there is no lease to release, or when the first reply it reads that decides its request is an ACK with a mask of one to three bytes; what is stored by then |
| DhcpClient.OneByteMaskCrashes | dhcp/dhcp4/dhcp4.go:144-145 | an offer and an ACK with a one-byte mask make a client without a lease panic, with that ACK stored |
| DhcpClient.AwaitTakesFirst | dhcp/dhcp4/dhcp4.go:237-256 | the reading loop answers with the first reply that matters and passes over everything before it |
| DhcpClient.MaskReachesNetconfig | dhcp/dhcp4/dhcp4.go:144-146 | the stored mask text is read back by the network configuration as the ACK's mask |
| DhcpClient.Client.ObtainOrRenew | dhcp/dhcp4/dhcp4.go:87-158 | one call changes lease, configuration and error, writes messages, and returns or panics, as specified |
| DhcpClient.Client.DhcpRequest | dhcp/dhcp4/dhcp4.go:181-257 | outcome and messages of one exchange |
| DhcpClient.Client.ReleaseLease | dhcp/dhcp4/dhcp4.go:160-171 | the lease is given up unless the write fails; without a lease the call panics |
| Diagnostics.FirstErrorIsRootCause | cmd/diagd/diagd.go:66-76 | the first error is empty exactly when every probe succeeds, and otherwise describes the first probe that fails by itself |
| Diagnostics.FailsBelowFailure | diag/diag.go:41-64 | a place is failed exactly when its own probe or one above it fails |
| Diagnostics.EvaluatePlace | diag/diag.go:41-64 | the name, status and error of every place of a result |
| Diagnostics.ProbeRunsWhenReached | diag/diag.go:47-55 | a probe runs exactly when all probes above it succeed, and at most once |
| Diagnostics.ProbesInOrder | diag/diag.go:41-64 | probes run in the order of visiting: a node before those below it, and these before its later siblings |
| Diagnostics.EvaluateNode | diag/diag.go:41-64 | the recursion with its loop computes the specified result and runs the specified probes |
| Diagnostics.MonitorEvaluate | diag/diag.go:66-68 | a monitor evaluates its tree from the root with nothing failed above it |
| Diagnostics.FirstError | cmd/diagd/diagd.go:66-76 | the early-return loop computes the specified text |
| NetText.MaskRoundTrip | netconfig/netconfig.go:42-57 | any four mask bytes survive being printed and parsed |
| NetText.MaskSizeRoundTrip | netconfig/netconfig.go:55-56 | the prefix length read back is k exactly for k ones followed by zeros |
| NetText.MaskLengthExact | netconfig/netconfig.go:55 | a mask has a length exactly when its ones are contiguous |
| NetText.SubnetMaskSize | netconfig/netconfig.go:42-57 | the loop parses all four parts or fails |
| NetText.PortRoundTrip | netconfig/netconfig.go:522-541 | every port or range printed in decimal is read back as it was |
| NetText.PortTextIsPrinted | netconfig/netconfig.go:522-541 | text without leading zeros is accepted only as the printed form of what it is taken to mean |
| Numerals.ReadsAsDecimal | netconfig/netconfig.go:529-535 | digits are read as the decimal number they look like exactly when there is no leading zero or the number is below 8 |
| Numerals.PrefixSetsBase | netconfig/netconfig.go:42-57 | 0b, 0o and 0x, in either case, set the base of the digits after them |
| Numerals.LeadingZeroIsOctal | netconfig/netconfig.go:529 | "010" is read as 8 and "08" is refused |

## Left out

- Frames, checksums and sockets (`dhcp/dhcp4d/dhcp4d.go:203-249`), netlink, sysctl, WireGuard, JSON, files, HTTP, SSH handshakes, logging and metrics: library calls and I/O. Parsed configuration, library results and read errors are parameters.
- The options of DHCP replies other than address and lease time, and the truncation of the lease time to whole seconds on the wire.
- The reads of the previous lease's fields, which hold no lock (`dhcp/dhcp4d/dhcp4d.go:341-348`), are one step in `LeaseRaces`; what a hostname set between two of these reads does is not modelled. `LeaseRuns` and `Handler` take a call of the server as one step.
- Handler.Handler.SetLeases: a list that names a slot or a client twice is loaded as the code loads it, but no later call is specified for a table that is not valid; the lists persisted by the handler itself always are (`LeaseTable.ReloadRestores`).
- Base prefixes of numbers are modelled, the underscores ParseUint also allows with base 0 are not; such a text counts as malformed.
- Firewall.ApplyFirewall: does not queue the two filter tables (`netconfig/netconfig.go:674-779`), which rewrite the segment size of forwarded TCP SYN packets and count forwarded packets, nor carry the counters over the flush (`netconfig/netconfig.go:590-625`). Their rules give no verdict, so the translation chains proved here do not depend on them.
- Interfaces.System.ApplyInterfaces: does not create bridges first (`netconfig/netconfig.go:240-296`), whose errors are only logged, and does not write the nameserver file once lan0 has its address (`netconfig/netconfig.go:387-396`).
- A destination that is no IPv4 address becomes an immediate without data; that the kernel refuses the batch for it is an assumption about the kernel.
- Renaming a link fails in the model only when the name is empty or taken; other kernel refusals are not modelled.
- `dhcp/dhcp6/dhcp6.go`: the DHCPv6 client keeps no lease between calls, so it has no counterpart of the DHCPv4 client's transitions.
- `multilisten/multilisten.go:78-96`: IPv6Net1 sets one byte of a prefix read from a file.
- The probes of diagd themselves, which are network calls; their results are parameters.
- `cmd/dhcp4/dhcp4.go`: the main loop around the DHCPv4 client, which waits on timers and signals. `ipc/ipc.go`: its notification functions have no bodies yet.
- libpcap's compiler: its output is proved correct, not the compiler.
