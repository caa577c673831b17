# Verified model of the mwan offload worker and BGP session

A Dafny 4.11 model of the hard parts of the mwan gateway, with proofs of what
they promise. The kernel, the DPDK SDK, GoBGP, the clock and the threads of
other components are arbitrary: every answer they can give is considered, as an
arbitrary choice or as a parameter where a promise depends on it.

The model has four parts.

- **Packet editor** (`Wire`, `Checksum`, `Packet`, `PacketBuild`, `PacketParse`,
  `PacketShape`, `PacketEdit`, `RestoreValues`, `ForwardTheorems`, `SegmentBuild`,
  `NatTheorems`, `SegmentTheorems`, `NatExistence`, `EligibilityTheorems`,
  `PacketInPlace`). Frames are octet sequences; headers, segments and pseudo headers
  are also built from their fields as the standards lay them out, independently of
  the decoder. Each edit
  is a function on octets, and a method on the frame's array that is proved to
  compute it. One's-complement arithmetic is kept exact: results are determined
  by their residue modulo 65535 together with which of the two zeros appears.
- **Offload worker** (`Directions`, `PairTable`, `FragmentTheorems`,
  `PacketQueue`, `Worker`). Class `Owner` has the owner's fields; its methods are
  the source's operations. Flow creation and deletion may fail, TX takes any
  prefix and may report nonsense, RX may report nonsense and null entries. Ghost
  fields record every reception and transmission, every name a handle ever had, and
  the flow handles consumed. Branches of the source that the invariant shows to be dead
  are `assert false` in the model.
- **BGP session and route installer** (`Routes`, `SessionPolicy`, `BgpSession`,
  `HitlessRestart`, `Speaker`). Class `Kernel` outlives the sessions that write
  it. A ghost flag says whether the kernel is *clean*: no deletion failed and no
  failed write changed anything. Agreement of book and installer holds always,
  agreement with the tables while the kernel is clean.
- **Step protocols** (`ChangeDelivery`, `AnnounceGate`). The delivery of session
  states is a transition system over threads; the agent's announcement gate is a
  class whose calls are atomic under one mutex.

Six results say more, or other, than the code's own comments. `restore` returns the
original frame except that a rewritten IP or TCP checksum of 0xffff comes back as
0x0000 (`NatTheorems.RestoreInvertsNat` gives the exact condition). Forwarding
keeps a frame eligible exactly above a hop limit of two. A default announcement
that fails half way is forgotten: the opposite request then succeeds without doing
anything (`AnnounceGate.HalfDoneIsForgotten`, with the exact conditions beside
it). And a best path is said to be reported whenever it changes the accepted or
rejected prefixes, but one that only erases a rejection is not
(`BgpSession.UnreportedChange`, with the exact condition on
`BgpSession.Session.ApplyBestPath`). The speaker's sweep is said to bring missing
routes back, but a failed listing or connected-network read is only logged, so its
answer does not tell (`Speaker.UnhealedSweep`, with the exact condition on
`Speaker.Speaker.SweepStale`). And listeners are said to learn of every change of
the accepted prefixes, but a stop without a peer that is up can pass unsaid
(`BgpSession.UnsaidStop`, with the exact conditions on `BgpSession.Session.Stop` and
`BgpSession.Session.StopRetaining`). The model follows the code.

`dafny verify dfyconfig.toml` checks the whole project.

## Model

| member | source | states |
|---|---|---|
| `Checksum.FoldCongruent` | native/src/packet.rs:709-714 | For every sum, folding changes it by a multiple of 65535 and gives zero only for zero. |
| `Checksum.FoldChecksum` | native/src/packet.rs:709-714 | The carry loop terminates in the one word congruent to the sum that is zero only with it. |
| `Checksum.SumWords` | native/src/packet.rs:695-707 | The loop over octets equals the recursive big-endian word sum, an odd last octet counting as a high one. |
| `Checksum.FoldIsAllOnes` | native/src/packet.rs:709-714 | A folded sum is all ones exactly for a positive multiple of 65535, which is what the validity tests ask. |
| `Checksum.ChecksumReplace` | native/src/packet.rs:716-732 | The incremental update loop equals the specified value and is refused exactly for unequal or odd lengths. |
| `Checksum.ReplacedResidue` | native/src/packet.rs:716-732 | Eqn. 3 of RFC 1624: the new checksum moves by exactly the change of the summed octets, and is 0xffff only if nothing changed or every new octet is zero. |
| `Wire.WriteInPlace` | native/src/packet.rs:679-693 | A write in range changes exactly the named octets; any other write is refused and changes nothing. |
| `Packet.Decode` | native/src/packet.rs:122-220 | Decoding is total and terminates; on success every header and transport range lies in the frame. What it reads is pinned by the round trips from built frames and their converses. |
| `PacketInPlace.DecodeFrame` | native/src/packet.rs:159-332 | The decoder with its VLAN and extension-header loops equals the recursive definition. |
| `PacketInPlace.SkipVlanTags` | native/src/packet.rs:159-182 | The tag loop takes at most two tags and equals the recursive definition. |
| `PacketInPlace.WalkExtensionHeaders` | native/src/packet.rs:262-332 | The extension loop takes at most eight headers, stops behind a later fragment, and equals the recursive definition. |
| `PacketBuild.Ipv4RoundTrip` | native/src/packet.rs:221-260 | Any IPv4 frame built from header fields, flags, options, payload and VLAN tags, in front of any padding, decodes to exactly those fields; more than two tags or another protocol are refused with their own codes. |
| `PacketBuild.Ipv6RoundTrip` | native/src/packet.rs:262-332 | The same for IPv6 with up to eight extension headers, the last of which may be a later fragment's. |
| `PacketBuild.Ipv4Truncated` | native/src/packet.rs:122-260 | What is left of an IPv4 frame cut anywhere: refused inside its headers, and behind them a malformed view of the transport that is there, refused if a first fragment lacks a whole transport header. |
| `PacketBuild.Ipv6Truncated` | native/src/packet.rs:122-332 | The same for IPv6 with its extension headers. |
| `PacketBuild.OtherNetworks` | native/src/packet.rs:183-200 | No other network protocol is decoded, tagged or not. |
| `PacketParse.Decoded4IsBuilt` | native/src/packet.rs:159-260 | Conversely, every frame that decodes as IPv4 starts with tags and a header built from valid fields. |
| `PacketParse.Decoded6IsBuilt` | native/src/packet.rs:159-332 | Every frame that decodes as IPv6 starts with tags, a header and extension headers built from valid fields. |
| `PacketBuild.WalkBuilt` | native/src/packet.rs:280-332 | A walk over any chain of well-formed extension headers ends behind them at the protocol they lead to. |
| `PacketShape.DecodeReread` | native/src/packet.rs:122-332 | Decoding depends on a frame only through its shape octets and plain field reads: a frame of the same shape decodes to the same view with the fields read again. |
| `ForwardTheorems.GuardSeesDscp` | native/src/packet.rs:336-340 | A guard compares the six DSCP bits and the flow label and ignores ECN. |
| `SegmentBuild.ChecksumsMean` | native/src/packet.rs:383-413 | The checksum test holds exactly when the IPv4 header octets, and the pseudo-header octets of RFC 9293 or RFC 8200 followed by the transport octets, add up to a nonzero multiple of 65535; only an IPv4 UDP packet may go without a checksum. |
| `SegmentBuild.EligibleMeans4` | native/src/packet.rs:342-413 | A built IPv4 frame may be forwarded by the worker if and only if it is untagged, without options, unfragmented, has a hop limit above one, fits the output, holds a plain segment or datagram, and its checksums are right over the octets they cover. |
| `SegmentBuild.EligibleMeans6` | native/src/packet.rs:342-413 | The same for IPv6, where the checksum must be there. |
| `SegmentBuild.ComputedIsRight` | native/src/packet.rs:383-413 | A transport checksum passes if and only if it is the one computed as in section 1 of RFC 1071, or the other zero for it. |
| `ForwardTheorems.SegmentMeans` | native/src/packet.rs:355-373 | A TCP transport passes exactly when its header fits in whole words and ACK is set and FIN, SYN, RST and URG are clear. |
| `RestoreValues.RestoreRegions` | native/src/packet.rs:415-552 | `restore` cannot fail on a decoded frame with a direction of its family, and every octet of the result is accounted for by region. |
| `NatTheorems.RestoreInvertsNat` | native/src/packet.rs:415-552 | For any original frame and valid endpoints, on the hardware-translated frame `restore` returns the original octets if and only if no rewritten IP or TCP checksum of the original was 0xffff; those alone come back as 0x0000, and UDP comes back exactly. The rewritten checksums are those at octets 16 of TCP and 6 of UDP. |
| `SegmentTheorems.RestoreMakesOriginal` | native/src/packet.rs:415-552 | Whatever IPv4 packet with right checksums the peer sent, `restore` makes it, octet for octet, of the same packet between the translated endpoints with right checksums of its own, tags, options and padding included. |
| `SegmentTheorems.RestoreMakesOriginal6` | native/src/packet.rs:423-434 | The same for every IPv6 packet of the connection and every fragment of one. |
| `NatExistence.TranslationExists` | native/src/packet.rs:446-552 | Every frame has, under every direction of its family, a hardware translation of the kind `restore` undoes. |
| `NatExistence.ThereAndBack` | native/src/packet.rs:415-552 | A frame of a direction can be rewritten by the hardware so that it decodes with the direction's MACs, translated addresses and, if it has ports, translated ports, in both families, and is restored to exactly its own octets. |
| `EligibilityTheorems.TranslationCarries` | native/src/controller.rs:2434-2480 | Every hardware translation of a direction's frame decodes with the MACs and the translated tuple that the worker looks packets up by. |
| `EligibilityTheorems.RestoreKeepsEligible` | native/src/packet.rs:342-444 | For every accepted direction whose tuple the frame carries, the restored frame decodes and passes the forwarding test exactly when the received one does. |
| `EligibilityTheorems.Ipv6Verdict` | native/src/packet.rs:423-434 | Though IPv6 restoration touches no transport octet, the transport checksum test keeps its verdict. |
| `Directions.Ipv6SumIsNeutral` | native/src/controller.rs:1359-1372 | The address sum compared at admission is equal exactly for checksum-neutral mappings (section 2.6 of RFC 6296). |
| `Directions.ComputeIpv6Sum` | native/src/controller.rs:1359-1372 | The summing loop gives the residue of the address below 0xffff. |
| `Directions.AcceptedMeans` | native/src/controller.rs:1395-1461 | A direction is accepted if and only if it is routed between station addresses to the receiver's own MAC with fit tuples, and an IPv6 one keeps ports and checksum sum; it is unsupported exactly if only the last fails, and invalid otherwise. |
| `Directions.CollisionsAreFew` | native/src/controller.rs:1463-1482 | Colliding is mutual, and connections that differ in a port on both sides between the same stations, or are of different controllers, do not collide. |
| `PairTable.PairsCollide` | native/src/controller.rs:1926-1970 | Two pairs collide if and only if two directions do that both ask for. |
| `ForwardTheorems.ForwardFailsOnlyAtZero` | native/src/packet.rs:554-572 | `forward` refuses a decoded frame of its family exactly when the hop limit is zero. |
| `ForwardTheorems.ForwardKeepsMeaning` | native/src/packet.rs:554-572 | Decoding a forwarded frame gives the same view but for MACs, hop limit and IPv4 checksum. |
| `ForwardTheorems.ForwardKeepsHeaderSum` | native/src/packet.rs:616-647 | The incremental IPv4 checksum update keeps the header valid or invalid. |
| `ForwardTheorems.ForwardKeepsEligible` | native/src/packet.rs:342-413 | A forwarded frame is eligible again if and only if it was and its hop limit exceeded two. |
| `ForwardTheorems.ForwardThenRestore` | native/src/packet.rs:574-614 | Undoing a forward and then the NAT gives octet for octet what `restore` gives on the frame as received. |
| `ForwardTheorems.RetiresOnlyForwarded` | native/src/packet.rs:574-614 | `restore_forwarded` takes back a frame exactly if it carries the output MACs and, at the hop limit's octet, one less than the view's hop limit. |
| `PacketInPlace.RestoreInPlace` | native/src/packet.rs:415-503 | The in-place edit computes `Restore`; on a decoded frame it succeeds exactly for a direction of its family and a failure leaves the frame unchanged. |
| `PacketInPlace.ForwardInPlace` | native/src/packet.rs:554-572 | The in-place edit computes `Forward`; on a decoded frame a failure leaves the frame unchanged. |
| `PacketInPlace.SetHopLimitInPlace` | native/src/packet.rs:616-647 | The in-place hop-limit write with its incremental checksum computes `SetHopLimit`. |
| `PacketInPlace.RestoreForwardedInPlace` | native/src/packet.rs:574-614 | The in-place edit computes `RestoreForwarded`; on a decoded frame a failure leaves the frame unchanged. |
| `PairTable.FreshKeys` | native/src/controller.rs:2009-2042 | A pair that collides with no live pair nor with itself finds its restoration keys unused and distinct, so the duplicate-key branch of install is dead. |
| `PairTable.AdmissionKeepsTable` | native/src/controller.rs:1999-2042 | Admitting a generation, retaining the drained pair it replaces, keeps the index in exact agreement with a scan and every earlier entry unchanged. |
| `PairTable.ReplacementKeepsTable` | native/src/controller.rs:2217-2239 | A pair may change state, legs, guards and policy generation without disturbing the index or any other pair. |
| `PairTable.IndexBound` | native/src/controller.rs:654-658 | The inverse index never exceeds four entries per slot, the reserved size. |
| `PairTable.ForgottenSound` | native/src/controller.rs:1796-1809 | Forgetting a drained table leaves no record, and every name a handle ever had. |
| `FragmentTheorems.FragmentResultUnique` | native/src/controller.rs:2457-2479 | Whichever matching live leg the scan picks, a port-less fragment is restored to the same octets. |
| `Worker.Owner.MatchesRestoreAlike` | native/src/controller.rs:2457-2479 | In every sound owner, all live legs that match a port-less fragment restore it to the same octets. |
| `FragmentTheorems.SelectorsUnique` | native/src/controller.rs:1463-1482 | No two live legs select the same hardware packets on a controller, nor the same tuple on an origin. |
| `PacketQueue.RetiredOk` | native/src/controller.rs:2333-2380 | Retiring a prepared packet cannot fail and gives exactly what a direct return would have given. |
| `PacketQueue.PacketsKeep` | native/src/controller.rs:2333-2380 | Queued and sent packets keep belonging to a leg of the connection their handle names, while handles are added and policies advance. |
| `PacketQueue.TranslationInverts` | native/src/controller.rs:2555-2597 | Whatever the hardware makes of a frame of an accepted direction satisfies the inverse checks of that direction. |
| `PacketQueue.ReturnedIsOriginal` | native/src/controller.rs:2647-2715 | A packet returned to the kernel whose arrival is a hardware translation of a frame is that frame, octet for octet, if and only if none of its rewritten IP or TCP checksums was 0xffff; otherwise only those differ. |
| `Worker.Owner.constructor` | native/src/controller.rs:639-702 | A new owner is sound and empty. |
| `Worker.Owner.RestorePending` | native/src/controller.rs:2333-2380 | Every entry becomes its retired form unless its pair still forwards; the restoration-failure branch is dead. |
| `Worker.Owner.BurstLength` | native/src/controller.rs:2384-2394 | The longest prefix of at most 32 entries for the front's port. |
| `Worker.Owner.SendBurst` | native/src/controller.rs:2384-2427 | Exactly the smaller of the reported count and the burst leaves, and a larger report is exactly when the owner fails terminally. |
| `Worker.Owner.FlushPending` | native/src/controller.rs:2382-2432 | For any count TX reports, a prefix of the retired queue leaves in order and as it stands, in bursts that are each the longest prefix for the front's port, until one is not taken whole; it is logged with the state at that moment; a count above the burst is a terminal fault. |
| `Worker.Owner.ResolveNames` | native/src/controller.rs:1721-1736 | What a handle resolves to is the connection it was issued for, and every live pair resolves. |
| `Worker.Owner.ScanFragment` | native/src/controller.rs:2457-2479 | The scan returns a live leg that matches by addresses, and nothing only if no live leg does, in any order of retained pairs. |
| `Worker.Owner.FindLeg` | native/src/controller.rs:2434-2480 | The lookup by exact key or by addresses finds a live matching leg or proves there is none; an indexed handle always resolves. |
| `Worker.Owner.Quarantine` | native/src/controller.rs:2482-2510 | The front packet is kept unchanged unless one is kept already, and the owner faults. |
| `Worker.Owner.ReadFront` | native/src/controller.rs:2528-2553 | Linearizing and decoding changes no octet; failure means an unreadable buffer or an undecodable frame. |
| `Worker.Owner.ChooseKernel` | native/src/controller.rs:2598-2646 | A packet is forwarded exactly when the owner runs, its pair is installed, its guard matches, it is eligible and its output link is up. |
| `Worker.Owner.Dispatch` | native/src/controller.rs:2647-2715 | The front packet joins the queue edited for its leg; the capacity, stale-handle and edit failures are dead. |
| `Worker.Owner.ProcessFront` | native/src/controller.rs:2512-2716 | A group frame, and no other, is discarded; a frame without a verified inverse is quarantined with its octets unchanged, any other is queued for exactly the leg it belongs to. |
| `Worker.Owner.ReceiveBurst` | native/src/controller.rs:2751-2785 | Whatever count and null entries RX reports, at most the budget is taken and every packet is recorded for its origin or counted as null, with exactly the missing entries counted; it fails exactly on an excess count or a null entry. |
| `Worker.Owner.PollPorts` | native/src/controller.rs:2718-2795 | One poll keeps conservation, receives at most its budget, and keeps the pending queue within min(32, mbuf count). It offers the retired queue first and asks no port while some of it stays; then it asks every started DATA port with an origin once, in turn from the cursor, until one leaves packets pending, it fails or the budget is spent, and sends what it received in that order. |
| `Worker.Owner.Poll` | native/src/controller.rs:3501-3530 | A refused call, one without a budget and one of an inactive owner do nothing and answer as the source does; any other polls the ports as above, and every invariant is kept whatever the SDK does. |
| `Worker.Owner.DestroyFlow` | native/src/controller.rs:1847-1851 | A flow handle may be passed to the SDK only once. |
| `Worker.Owner.DestroyLeg` | native/src/controller.rs:1818-1864 | The handle leaves the leg exactly when it is passed to the SDK, marked if that failed; a marked leg is never tried again. |
| `Worker.Owner.DeletePair` | native/src/controller.rs:1811-1872 | Success leaves a clean draining pair, failure a faulted pair and owner; no other slot or record changes. |
| `Worker.Owner.CreateFlow` | native/src/controller.rs:2224-2236 | A created flow is a handle never issued before. |
| `Worker.Owner.ActivatePair` | native/src/controller.rs:2217-2239 | Success installs a flow on exactly the requested legs; failure, only ever the SDK's, cleans up and keeps spec, guards and generation. |
| `Worker.Owner.CheckCollisions` | native/src/controller.rs:1920-1987 | The two scans admit a pair if and only if it collides with no live pair. |
| `Worker.Owner.RetainPair` | native/src/controller.rs:1738-1776 | Refused exactly for unfinished cleanup or a full table; otherwise the pair moves under its own handle. |
| `Worker.Owner.AdmitPair` | native/src/controller.rs:1999-2042 | Only a full retained table refuses: the duplicate-key and unfinished-cleanup branches are dead, and earlier index entries stay. |
| `Worker.Owner.CheckInstall` | native/src/controller.rs:1874-1993 | Each refusal is given for its reason, in the source's order, and a pair passes if and only if none applies; it gets the lowest free slot or else the lowest drained one. |
| `Worker.Owner.InstallPair` | native/src/controller.rs:1874-2043 | The call is refused exactly for the reasons of the checks and then changes nothing; an admitted pair gets a handle never used before and is installed, unless the SDK fails. |
| `Worker.Owner.CheckReuse` | native/src/controller.rs:2052-2090 | Stale unless the handle names the current pair of its slot, then busy unless the owner runs and the pair is drained, then invalid unless it is the same connection with a policy generation not below. |
| `Worker.Owner.ResumePair` | native/src/controller.rs:2045-2122 | Refused exactly for those reasons or for other guards; otherwise it reinstalls under the same handle with the same guards unless the SDK fails, and failure leaves every spec and guard unchanged. |
| `Worker.Owner.ReobservePair` | native/src/controller.rs:2124-2215 | As resumption, refused for invalid instead of other guards; failure leaves every spec and guard unchanged. |
| `Worker.Owner.RemovePair` | native/src/controller.rs:3436-3467 | A stale handle is refused; a current one has every flow passed to the SDK's destroy call and its pair drained, or faulted if that fails; a retained one deletes nothing. Success leaves no packet prepared under the handle, and all records stay. |
| `Worker.Owner.Drain` | native/src/controller.rs:2797-2827 | Success means no packet is pending, received or quarantined, and that polls spanning the quiet interval saw nothing arrive; it ends without success only for a failed poll or after the timeout, and it always ends. |
| `Worker.Owner.StopPorts` | native/src/controller.rs:2888-2912 | Success means every port is stopped; a refusal faults the owner. |
| `Worker.Owner.ForgetPair` | native/src/controller.rs:1796-1809 | The slot's keys leave the index and nothing is added. |
| `Worker.Owner.Quiesce` | native/src/controller.rs:2861-2912 | Success means drained pairs, stopped ports, no miss rule and no packet left; whether or not it succeeds, the owner quiesces, no pair stays installed and the restoration index is untouched. |
| `Worker.Owner.Close` | native/src/controller.rs:2829-2968 | Restoration records change only once every port has stopped; success leaves no flow, inverse, retained pair, packet, miss rule or running port; even a failed close leaves the owner quiescing with no pair installed; the no-EAL resource check never fires. |
| `Worker.Owner.Activate` | native/src/controller.rs:1321-1331 | Success starts every port, sets every controller's miss rule and ends quiescing; failure leaves the owner as active as it was. |
| `Worker.Owner.RemoveMisses` | native/src/controller.rs:1274-1319 | Success leaves no miss rule; the first one that stays faults the owner. |
| `Worker.Owner.Reopen` | native/src/controller.rs:3198-3214 | Only a healthy owner with the identical configuration reopens; handles keep their names. |
| `Worker.Owner.Step` | native/src/controller.rs:3172-3555 | Every call keeps the invariant, does what its own contract says, never renames a handle, never lowers a policy generation, counts no null entry without a terminal failure, and keeps every inverse unless it is a close that stopped all ports. |
| `Worker.Owner.Run` | native/src/controller.rs:2333-2795 | In every run each transmission carried the exact octets, and a forwarded one took a requested leg of the connection its handle names while that generation was installed and the owner neither quiescing nor faulted; every packet received, by origin and octets, was exactly once sent, is queued, waits, is quarantined, or was discarded as a group frame; the counters agree but for at most one burst of null entries, and only with a terminal failure; queue and index stay within their reserved sizes; no index entry changes unless a close stopped all ports. |
| `Worker.Serve` | native/src/controller.rs:3172-3214 | The same from creation and opening on. |
| `Routes.Fib.InstallGateway` | gateway/internal/bgp/fib.go:368-387 | Success puts the prefix into every owned table; no other prefix is touched; with clean failures nothing is lost. |
| `Routes.Fib.DeletePrefix` | gateway/internal/bgp/fib.go:389-410 | Success removes the prefix from every owned table; no other prefix is touched. |
| `Routes.Fib.Apply` | gateway/internal/bgp/fib.go:142-160 | The path becomes desired and its installation is attempted in every table. |
| `Routes.Fib.Withdraw` | gateway/internal/bgp/fib.go:262-289 | The peer's desired paths inside the prefix go, or the prefix itself when there is none. |
| `Routes.Fib.WithdrawExact` | gateway/internal/bgp/fib.go:316-325 | Exactly the prefix goes, not what it contains. |
| `Routes.Fib.WithdrawPeer` | gateway/internal/bgp/fib.go:328-347 | All and only the peer's desired prefixes go, in any order, each attempted. |
| `Routes.Fib.Installed` | gateway/internal/bgp/fib.go:293-311 | Exactly the prefixes that some owned table holds. |
| `Routes.Fib.Refresh` | gateway/internal/bgp/fib_nexthop.go:76-111 | If the tables can be listed, every desired prefix whose next hop resolves is in every table afterwards or was refused by the kernel; only a refused prefix is rejected or can lose a route. |
| `Routes.Fib.SweepStale` | gateway/internal/bgp/fib.go:165-215 | Unarmed it changes nothing; armed and error-free it leaves only desired prefixes; a desired prefix is never touched. |
| `SessionPolicy.ImportRejection` | gateway/internal/bgp/session_policy.go:20-43 | No reason if and only if the prefix is importable; an export is refused first; the bounds reason only when a rule covers the prefix. |
| `BgpSession.Session.Install` | gateway/internal/bgp/session_refresh.go:10-38 | The path is accepted with its next hop, its rejection erased, or its installation was refused; book, installer and tables stay in agreement and no other prefix moves. |
| `BgpSession.Session.ApplyBestPath` | gateway/internal/bgp/session_paths.go:91-127 | A withdrawn prefix leaves the book; an importable announcement is accepted with its next hop or refused, and recorded as rejected without one; every other prefix keeps its place and its routes. Reported as unchanged, accepted and retained prefixes are unchanged, and the rejections changed if and only if the path repeats an accepted announcement whose prefix is on record as rejected. |
| `BgpSession.UnreportedChange` | gateway/internal/bgp/session_paths.go:89-90 | The promise to report every change of accepted or rejected prefixes fails: in a new session, for every importable path, announcing it, then without a next hop, then again erases a rejection unreported, unless the kernel refuses the route. |
| `Routes.ContainsMeans` | gateway/internal/bgp/fib.go:217-245 | A prefix contains another if and only if every address of the second is one of the first. |
| `BgpSession.WithoutChanges` | gateway/internal/bgp/session_refresh.go:21-28 | Erasing a prefix from the rejection record changes it exactly when the prefix was on it. |
| `BgpSession.Session.BestPaths` | gateway/internal/bgp/session_paths.go:69-87 | Of each prefix, the last reported path that decides on it says what becomes of it: withdrawn it leaves the book, announced it is accepted with that next hop or waits because it was refused; a prefix no path decides on is untouched in book and tables. Listeners are told of every change. |
| `BgpSession.Session.PeerEvent` | gateway/internal/bgp/session_paths.go:25-67 | Only the loss of an established peer changes routes, and then everything learned goes and exactly the exports whose withdrawal fails stay advertised; a state is queued exactly if the peer came or went. |
| `BgpSession.Session.DropRetained` | gateway/internal/bgp/session_retained.go:90-100 | Retention ends, every retained prefix is attempted, and one stays only if its deletion failed. |
| `BgpSession.Session.WithdrawRetained` | gateway/internal/bgp/session_retained.go:112-122 | A retained prefix leaves the set exactly when its deletion succeeds. |
| `BgpSession.Session.Reapply` | gateway/internal/bgp/session_retained.go:125-153 | Of each prefix, the last current best path listed decides as in a batch; a prefix not listed is untouched, and every prefix keeps its place unless refused. |
| `BgpSession.Session.EndOfRib` | gateway/internal/bgp/session_retained.go:18-45 | With a listing the retention ends, the last path listed for a prefix decides on it without losing a route unless refused, and a clean kernel keeps no retained prefix; without one nothing changes. Listeners are told of every change. |
| `BgpSession.Session.Deadline` | gateway/internal/bgp/session_retained.go:51-71 | Only the timer of the current retention acts; it applies the listing, if there is one, as above, ends the retention even without one, and tells the listeners. |
| `BgpSession.Session.RefreshRoutes` | gateway/internal/bgp/session_refresh.go:40-79 | Every waiting path ends accepted or was refused again; if the tables can be listed, an accepted prefix whose next hop resolves is in every table or was refused; leftovers of a retention are gone with a clean kernel; while retaining, no prefix loses its place unless refused. Listeners are told of every change. |
| `BgpSession.Session.Sweep` | gateway/internal/bgp/session_paths.go:17-23 | Accepted prefixes are spared; with readable tables and a clean kernel it succeeds; an armed error-free sweep leaves accepted prefixes only, and no stray. |
| `BgpSession.Session.KeepRoutes` | gateway/internal/bgp/session_restart.go:19-52 | With readable tables, a stopped session with a restart time that retains nothing records exactly the installed prefixes and a fresh timer generation and tells the listeners; any other is refused and unchanged. |
| `BgpSession.Session.Start` | gateway/internal/bgp/session.go:115-164 | A session starts exactly if its server runs; the peer is added at start exactly when no routes are retained, and sweeping is armed. |
| `BgpSession.Session.Connect` | gateway/internal/bgp/session_restart.go:80-96 | A session connects exactly if it is started and its peer is, or can be, added. |
| `BgpSession.Session.Stop` | gateway/internal/bgp/session.go:285-333 | The book is empty afterwards, and a clean kernel holds only what was stray before. Listeners whose last state was current are told if and only if the session was not one with accepted prefixes, none retained and no peer up. |
| `BgpSession.Session.StopRetaining` | gateway/internal/bgp/session_restart.go:103-132 | The book is cleared while installer and tables stay exactly as they were. Listeners whose last state was current are told if and only if the peer was up or no prefix was accepted or retained. |
| `BgpSession.UnsaidStop` | gateway/internal/bgp/session_state.go:38-42 | The promise to tell listeners of every change of accepted prefixes fails: in a new session every importable path that arrives before the peer is up is accepted and told, and after either kind of stop the last state told still lists it, unless the kernel refused it. |
| `BgpSession.Session.SetAdvertisement` | gateway/internal/bgp/session_advertise.go:16-35 | Each export prefix with a rule of its own is advertised afterwards exactly if wanted, or as before if its operation fails; success means none failed. |
| `BgpSession.Session.WithdrawExports` | gateway/internal/bgp/session_advertise.go:37-46 | Exactly the advertised exports whose withdrawal fails stay advertised, and it succeeds exactly if there is none. |
| `BgpSession.Session.Run` | gateway/internal/bgp/session_paths.go:25-142 | Over every event sequence the accepted prefixes are exactly the desired ones with the same next hops, apart from waiting, retained and exported ones; with a clean kernel every accepted prefix is in every table and every route there is accepted, retained or a stray; no prefix becomes a stray; and until a stop, the last state queued for the listeners has the current peer state, accepted and retained prefixes and every rejection. |
| `BgpSession.Operate` | gateway/internal/bgp/session.go:62-164 | From creation on, with a clean kernel, every route in an owned table is accepted, retained or was in the kernel before; and until a stop the listeners were told the current state. |
| `HitlessRestart.Restart` | gateway/internal/bgp/session_restart.go:98-132 | Across two processes, a prefix accepted before and sent again before the retention ends, or found in the listing that ends it, is in every owned table in every state the tables had, unless the kernel refused it. The peer may change state freely until the session is established, listings at End-of-RIB may fail and other timers may fire. |
| `HitlessRestart.Forsake` | gateway/internal/bgp/session_retained.go:18-100 | A prefix the new process never hears of is gone from every table once End-of-RIB was handled with a listing or the deadline fired, with a clean kernel. |
| `ChangeDelivery.RunInv` | gateway/internal/bgp/session_state.go:82-108 | Every state reachable under any interleaving satisfies the delivery invariant. |
| `ChangeDelivery.HistoryIsRun` | gateway/internal/bgp/session_state.go:82-108 | What the state records as queued and as seen by each listener is what the steps of the run queued and called. |
| `ChangeDelivery.OneDelivererAtATime` | gateway/internal/bgp/session_state.go:89-108 | At most one thread calls listeners at a time. |
| `ChangeDelivery.InOrderOnceEach` | gateway/internal/bgp/session_state.go:42-46 | In every run, the calls a listener got are the states queued in the run from the first not taken when it joined, in order, once each, and it lags by no more than the one being delivered and those still queued. |
| `ChangeDelivery.NoLostWakeUp` | gateway/internal/bgp/session_state.go:89-108 | When no thread is delivering or about to, the queue is empty and every listener was called with everything queued in the run since it joined. |
| `Speaker.Speaker.ApplyBestPath` | gateway/internal/bgp/speaker.go:232-278 | A default, a path without next hop and one covering a connected network change nothing; any other announcement becomes desired and its installation is attempted. |
| `Speaker.Speaker.ReapplyBestPaths` | gateway/internal/bgp/speaker.go:293-327 | A prefix is desired afterwards if and only if it was, or a listing handed over a wanted path for it whose connected networks could be read; each such path is in every table unless refused, and only a refused prefix can lose a route. |
| `Speaker.ReappliedKeys` | gateway/internal/bgp/speaker.go:306-327 | Exactly the wanted and checked paths of a listing join the desired prefixes. |
| `Speaker.Speaker.SweepStale` | gateway/internal/bgp/speaker.go:515-525 | A started speaker's sweep heals exactly the paths whose listing and read succeeded, whatever it answers; armed and error-free it leaves only desired routes; unarmed it deletes nothing. |
| `Speaker.UnhealedSweep` | gateway/internal/bgp/speaker.go:304-327 | The promise that one sweep heals fails without a word: when the listings fail, the sweep of a started speaker answers without an error and no best path is desired. |
| `AnnounceGate.Agent.SetDefaultAnnouncements` | gateway/internal/bgp/speaker.go:567-604 | Each family whose flag differs is taken up to the first failed path, which keeps the family's flag over what was reached and the next family untouched; it succeeds exactly if no needed path fails; every path gained is logged with its cause; withdrawing originates nothing. |
| `AnnounceGate.SuccessIsComplete` | gateway/internal/bgp/speaker.go:557-585 | A successful request leaves exactly what it wants originated if and only if the flag differed or that was originated already. |
| `AnnounceGate.HalfDoneIsForgotten` | gateway/internal/bgp/speaker.go:567-585 | For all prefixes and every place of the failure, from a new agent: after a failed announcement a withdrawal succeeds and leaves what was reached originated; after a failed withdrawal an announcement succeeds and leaves what was withdrawn missing. |
| `AnnounceGate.Agent.AnnounceRoutes` | gateway/internal/agent/server.go:492-523 | With gating, a request goes through exactly for an admitted readiness and otherwise changes nothing; success alone releases the latch; every path gained is logged. |
| `AnnounceGate.Agent.WithdrawRoutes` | gateway/internal/agent/server.go:525-541 | The request latches whether or not it succeeds, originates nothing, and leaves nothing originated on success if and only if the flag was up or nothing was originated. |
| `AnnounceGate.Agent.ReconcileReady` | gateway/internal/agent/bgp_ready.go:51-64 | A poll behind the latch changes nothing; otherwise it reconciles to the readiness read, none if unreadable. |
| `AnnounceGate.Agent.PeerEstablished` | gateway/internal/bgp/speaker.go:208-218 | With gating, or with a peer missing, a peer event changes nothing. |
| `AnnounceGate.Agent.Run` | gateway/internal/agent/server.go:492-541 | In every interleaving every path gained is a logged origination; with gating, nothing but a request originates a path between a withdraw request and the next granted announce request, and behind the latch a run without an announce request gains no path. |

## Left out

- DPDK calls, port discovery, EAL start-up, `build_flow` items and actions and mbuf pointers are reduced to success or failure; the flow a pair installs is not described.
- Looking up a discovered port by index always succeeds in the packet path; a missing controller port is one of the arbitrary failures of a flow deletion.
- The VXLAN contexts of the controller appear only as one arbitrary success or failure while closing.
- `validate_config` and the session configuration checks: their conclusions are preconditions of the constructors.
- Panic catching, thread-identity checks and null-pointer checks at the C boundary.
- Diagnostic counters, error texts, pair result masks and statistics queries; counters that take part in conservation do not wrap.
- The owner's array of origins by DATA port is a search over the configured origins.
- Worker.Owner.PollPorts: the cursor over the DATA ports does not wrap at the width of a machine word.
- Worker.Owner.Drain: the clock does not saturate at the width of a machine word.
- Worker.Owner.ReceiveBurst: buffers are values, so aliasing between mbufs is not modelled.
- Worker.Owner.Close: ports other than DATA ports are not modelled; stopping or closing them is part of the arbitrary failures.
- Gateway choice for BGP next hops: route presence is modelled, not the gateway value; resolving and comparing gateways is arbitrary.
- Routes.Fib.Refresh: always resolves next hops, as the session's installer does (`gateway/internal/bgp/session.go:80`); the early return of an installer without resolution (`gateway/internal/bgp/fib_nexthop.go:80`) is not modelled.
- Routes of other interfaces, metrics and protocols in the owned tables, and edits by other programs.
- BgpSession.Session.Sweep: is one step between events, although the source runs it beside them under the installer's mutex only.
- BgpSession.Session.Run: which states are queued for the listeners is part of the session; their delivery by several threads is modelled apart, in `ChangeDelivery`.
- The name, the state machine's state name and the time of establishment in a session state.
- GoBGP, path attributes, the graceful-restart capability and timers' wall-clock values; a deadline fires whenever the environment says so.
- The announcements' protobuf paths and router identifiers; how many of a family's path operations succeed is a parameter of each call.
- The command line, debug views, deployment, YANG projection, OPNsense client, configuration loading, alerting, health checks and tracing: input, output and plumbing.
