# tmasque: a verified model of its packet path and its reconnect policy

`tmasque` is the client side of a VPN that carries IP packets in QUIC datagrams. Datagrams arrive
unordered, so on the download path the client can put the TCP segments of each flow back in order
before they reach the TUN device. On the upload path it pins each flow to one of several bonded
tunnels by a symmetric hash. Around both runs a reconnect loop with a bounded budget, which must
leave the host's routing policy clean when it gives up.

This project models that logic in Dafny and proves what it promises, for all inputs and all runs.

## How the model is built

The resequencer exists at three levels, and each is connected to the next.

1. `ForwardReseq.dfy` and `Reader.dfy` follow the program: flow records are objects that methods
   update, packets are slices of byte arrays, held segments live in arrays of their own, and the
   loops over maps pick their elements in an arbitrary order. Each method is proved against a
   function on values.
2. `FlowModel.dfy` gives those functions for one flow, and `Resequencer.dfy` for all flows. They are
   written once and read in two arithmetics: `Wrapping`, the 32-bit numbers the program compares
   through the sign of a difference, and `Unbounded`, positions that never wrap. `Refinement.dfy`
   shows that the first simulates the second.
3. `PushLaws.dfy` says what one push does as a relation. `FlowLaws.dfy`, `NoLoss.dfy`, `Greedy.dfy`,
   `Restoration.dfy` and `Overflow.dfy` prove the laws of one flow over whole histories; `Traffic.dfy`
   lifts them to any interleaving of flows through the isolation theorem.

`Span.dfy` gives conditions under which the range condition of the refinement holds. `Packet.dfy`
reads TCP headers, `Observers.dfy` holds the two reorder counters, `ObserverAgreement.dfy` relates them
and `ObserverCounts.dfy` says what they count, `FlowHash.dfy` is the tunnel hash and `HashLaws.dfy` what
it computes and how it spreads flows, `PolicyRules.dfy` and `Reconnect.dfy` the reconnect loop with its
effect on the host, `LastIP.dfy` the last address of a prefix. `Serial.dfy` and `Collections.dfy`
hold shared arithmetic and helpers. `dafny verify dfyconfig.toml` covers the whole project.

Received packets, clock readings, the order in which a map is visited and the outcome of each
connection attempt are inputs: every theorem holds for all of them. Times are integers, in
nanoseconds except for the waits of the reconnect loop, which are in seconds.

## Main results

- **Restoration** (`Traffic.StreamRestoredInTraffic`): a stream pushed in any order,
  each segment starting less than 2^31 positions after the first missing byte, comes out exactly in
  stream order if and only if its first segment arrives first and at most `window` segments are ever
  early.
- **Overflow** (`Traffic.OverflowInTraffic`, `Overflow.CalmExactly`, `Overflow.WrappedAfterOverflow`):
  however the segments of a stream arrive and however often the window overflows, the output is that of
  a reference on stream indices. An overflow skips exactly one gap, and the deliveries then continue
  the stream without a gap if and only if the window does not overflow again.
- **Push, exactly** (`PushLaws.PushExactly`): what one push emits, holds and sweeps, in every state.
- **Refinement** (`Refinement.RunSimulates`): over every history within range, wrapping changes nothing.
- **Loss, exactly** (`NoLoss.WrappedLosesExactly`): a flow can lose a range of its segments if and only
  if, beyond the end of one segment, another reaches past the start of a third ("straddles") or two
  with one start differ in length ("rivals"). One segmentation excludes both (`NoLoss.OneCutSafe`), and
  then gap skips and flushes lose nothing amid any traffic (`Traffic.NothingLostInTraffic`).
- **Order** (`Traffic.OrderInTraffic`, `Traffic.PositionsInTraffic`): whatever arrives, the deliveries of
  a flow record occupy successive ranges of unbounded sequence space, each less than 2^31 beyond the
  one before; within range these are the true positions of the segments.
- **Accounting** (`Traffic.TrafficAccounts`): every packet pushed is emitted, held, ignored as already
  held, or swept, counted with multiplicity.
- **Isolation** (`Resequencer.FlowIsolation`): a flow behaves as if it were alone.
- **Flush as a greedy filter** (`Greedy.FlushIsGreedy`), for every flush of the reader
  (`Reader.EveryFlushIsGreedy`).
- **Buffer reuse** (`Reader.Inbound`): the bytes written to the TUN are those of the value-level run,
  although every read overwrites one array.
- **Observers** (`ObserverAgreement.ObserversAgree`): exactly when the two observers agree, and how
  their counters then relate.
- **What the observers count** (`ObserverCounts.RingCounts`, `GenuineExactly`, `MaximumOnArcs`): exact
  counters over every trace, through the resets that bound the number of flows.
- **Tunnel pinning**, with the exact condition (`FlowHash.DirectionsAgreeExactly`); **hash separation**
  (`FlowHash.HashSeparates`) and its effect on the choice of the tunnel (`HashLaws.TunnelsSeparate`); what
  is hashed and how (`HashLaws.CanonicalBytes`, `HashLaws.HashIsFnv1a`).
- **Reconnect budget, waits and policy rules** (`Reconnect.Reconnect`), **last address**
  (`LastAddress.FilledIsBlockEnd`).

## Where the code and its comments differ

The model follows the code.

- `RECONNECT_ATTEMPTS` defaults to 1 in the code (src/main.go:436), to 3 in the comment above it and
  in the README. The model takes it as a parameter of at least 1.
- The comment on `ForwardReseq` speaks of two goroutines (src/utility/reseq.go:67-69); the caller uses
  one (src/main.go:889-892). The theorems hold for any interleaving of atomic steps.
- A flow is flushed when it has been idle for exactly `maxAge` as well, not only for longer
  (src/utility/reseq.go:76 and 160).
- The flush loop's comment says that orphans are abandoned when no future segment remains
  (src/utility/reseq.go:167). None are left at that point: the sweep has removed them already
  (`ForwardReseqImpl.ReseqFlow.FlushAll`).
- `parseTCP` counts one for SYN and FIN together, although each consumes one
  (src/utility/reseq.go:236-238); `Packet.ParsedEndIsSegLen` says exactly when that matters.
- `flowHashSym` does not reject header lengths below 20 (src/main.go:954), where it reads the ports
  from inside the header. `FlowHash.DirectionsAgreeExactly` says for which packets the two directions
  are then hashed alike, `FlowHash.ShortHeaderAsymmetric` gives one that is not.

## Model

| member | source | states |
|---|---|---|
| Serial.DistOfWrapped | src/utility/reseq.go:131 | the signed 32-bit difference of two wrapped positions is their true difference whenever that is representable |
| Packet.ParseTCP | src/utility/reseq.go:219-248 | an accepted packet has a 13-byte key, 32-bit numbers, at least 40 bytes, and is carried whole |
| Packet.ParseOfLaidOut | src/utility/reseq.go:219-248 | parsing a packet laid out from its fields, with any options, gives back addresses, ports and number; it is let through unparsed exactly when it consumes no sequence space |
| Packet.ParsedExactly | src/utility/reseq.go:219-248 | a packet is parsed if and only if it is laid out from well-formed IPv4 and TCP headers and consumes sequence space |
| Packet.ParsedEndIsSegLen | src/utility/reseq.go:233-247 | the parsed end is the start plus SEG.LEN of section 3.4 of RFC 9293 if and only if SYN and FIN are not both set |
| Packet.ParsedLength | src/utility/reseq.go:233-247 | a parsed packet covers at least one byte of sequence space and at most what fits behind its headers, plus one |
| FlowModel.Drain | src/utility/reseq.go:176-186 | draining only removes held segments and stops where the next expected number is not held |
| FlowModel.SkipGap | src/utility/reseq.go:192-214 | a gap skip either empties the buffer and finds nothing, or strictly shrinks it; what it sweeps and what it keeps are disjoint parts of what was held |
| FlowModel.FlushAll | src/utility/reseq.go:163-169 | the flush loop terminates with nothing held |
| PushLaws.DrainReleases | src/utility/reseq.go:176-186 | a drain releases exactly the held segments that follow without a gap, each once, and stops where none continues |
| PushLaws.SkipGapSkipsOne | src/utility/reseq.go:192-214 | a gap skip sweeps exactly what is not ahead, emits the nearest segment ahead and what follows it without a gap, and nothing more |
| PushLaws.PushExactly | src/utility/reseq.go:110-151 | in either arithmetic and every state: in order, behind and ahead of the next number, what is emitted, held, ignored and swept; an overflow skips exactly one gap |
| FlowLaws.ReactSound | src/utility/reseq.go:131-150 | each step keeps the flow invariant: at most `window` segments held, filed under their own number, never the next expected one |
| FlowLaws.RunSound | src/utility/reseq.go:110-214 | the invariant holds after every history |
| FlowLaws.ReactAccounts | src/utility/reseq.go:110-214 | one step neither creates nor forgets a packet |
| FlowLaws.RunAccounts | src/utility/reseq.go:110-214 | over every history, pushed equals emitted plus held plus ignored as already held plus swept, for each packet with multiplicity |
| FlowLaws.PassThroughInert | src/utility/reseq.go:137-139 | a pass-through emits only itself and changes neither the next number nor the buffer |
| FlowLaws.RunOrdered | src/utility/reseq.go:126-214 | between priming and reaping each delivery starts at or ahead of the end of the one before, and the open record waits at the end of its last delivery |
| FlowLaws.DeliveriesSuccessive | src/utility/reseq.go:126-214 | the deliveries of a 32-bit record unroll onto successive, non-overlapping ranges of integers, each beginning where the one before ended or less than 2^31 ahead, with no assumption on what arrives |
| FlowLaws.OrderedIsUnrolled | src/utility/reseq.go:131-150 | a group of 32-bit segments can be unrolled like that if and only if each starts at or ahead of the end of the one before |
| FlowLaws.DeliveriesIncrease | src/utility/reseq.go:126-214 | over unbounded positions each delivery of a record ends before any later one starts |
| FlowLaws.EmissionsSourced | src/utility/reseq.go:126-214 | everything a flow emits is a pass-through or a delivery of one of its records, and each record's deliveries occur in the output in order |
| FlowLaws.EmissionsIncrease | src/utility/reseq.go:126-214 | over unbounded positions, of two emissions one record delivered the later starts at or after the end of the earlier |
| Refinement.DrainSimulates | src/utility/reseq.go:176-186 | the 32-bit drain is the unbounded drain modulo 2^32, in state and output |
| Refinement.SkipGapSimulates | src/utility/reseq.go:192-214 | the 32-bit gap skip finds, emits and keeps what the unbounded one does modulo 2^32, and sweeps the corresponding entries |
| Refinement.FlushSimulates | src/utility/reseq.go:163-169 | the 32-bit flush emits what the unbounded one does modulo 2^32 and sweeps the corresponding entries |
| Refinement.ReactSimulates | src/utility/reseq.go:131-150 | one step of the 32-bit flow is the unbounded step modulo 2^32 while every compared position is within [-2^31, 2^31) of the next one |
| Refinement.RunSimulates | src/utility/reseq.go:131-214 | over every history within range: same output, same deliveries of each record, same held segments, same ignored and same swept packets, modulo 2^32 |
| Refinement.WrappedDeliveriesIncrease | src/utility/reseq.go:126-214 | within range the output of the 32-bit flow consists of wraps of arrived segments, and those one record delivered stand at increasing, non-overlapping true positions |
| Span.ReactWithin | src/utility/reseq.go:131-214 | a step is within range when all segments in play fit in one stretch of 2^31 positions, and they then stay in it |
| Span.CompactNear | src/utility/reseq.go:131-214 | a stretch that moves along with the stream is enough for a whole history |
| Span.ShortStreamCompact | src/utility/reseq.go:131-214 | a stream of at most 2^31 bytes is within range wherever it starts on the number circle, in any order of arrival |
| NoLoss.OneCutSafe | src/utility/reseq.go:135 | segments of one segmentation neither straddle nor rival each other |
| NoLoss.ReactAhead | src/utility/reseq.go:131-214 | on segments that do not straddle a step sweeps nothing and keeps everything held ahead of the next position |
| NoLoss.RunSweepsNothing | src/utility/reseq.go:192-214 | no entry of such a flow is ever swept |
| NoLoss.StraddledSwept | src/utility/reseq.go:131-214 | for every window, a segment that arrives before one reaching past its start, behind the end of a third, is swept and never comes out |
| NoLoss.SweepsExactly | src/utility/reseq.go:198-200 | some history over given segments sweeps one of them if and only if there is a window and some three of them straddle |
| NoLoss.DroppedRepresented | src/utility/reseq.go:141-145 | without straddling and rivals, a packet is ignored only when its range is held, and that range is emitted or still held |
| NoLoss.RivalIgnored | src/utility/reseq.go:141-145 | of two segments with one start and different ends the second to arrive early is ignored and its range never comes out |
| NoLoss.LosesExactly | src/utility/reseq.go:131-214 | some history over given segments loses a range if and only if there is a window and some of them straddle or rival |
| NoLoss.NothingLost | src/utility/reseq.go:137-214 | for the 32-bit flow without straddling and rivals: nothing swept; once reaped, every packet emitted exactly once except copies of a range held when they arrived, and that range has been emitted |
| NoLoss.WrappedSweepsExactly | src/utility/reseq.go:198-200 | the equivalence for sweeping, for the 32-bit flow on segments within one stretch of 2^31 positions |
| NoLoss.WrappedLosesExactly | src/utility/reseq.go:131-214 | the equivalence for losing a range, for the 32-bit flow |
| NoLoss.OverlapLoses | src/utility/reseq.go:135 | an input on which the 32-bit flow loses a segment across the wrap |
| Greedy.FlushKeeps | src/utility/reseq.go:163-214 | draining and then flushing an unbounded flow emits what one pass over its held segments by position keeps, each starting at or after the end of the last one kept |
| Greedy.FlushInRange | src/utility/reseq.go:163-214 | a flush stays within range while the slack and the held bytes total at most 2^31 |
| Greedy.FlushIsGreedy | src/utility/reseq.go:159-214 | flushing a 32-bit flow whose held bytes total at most 2^31 emits what one pass over its future segments by distance keeps |
| Greedy.IdleFlushIsGreedy | src/utility/reseq.go:156-172 | the same in every reachable state when window times packet length is at most 2^31 |
| Restoration.DrainStream | src/utility/reseq.go:176-186 | draining a stream emits it up to the next missing segment and keeps exactly the later ones |
| Restoration.FirstOut | src/utility/reseq.go:126-136 | the first segment to arrive is the first to come out, whatever follows |
| Restoration.StreamRestored | src/utility/reseq.go:110-186 | over unbounded positions the output is the stream if and only if its first segment arrives first and at most `window` segments are ever early; the buffer then ends empty at the end of the stream |
| Restoration.WrappedStreamRestored | src/utility/reseq.go:110-186 | the same equivalence for the 32-bit flow when every arriving segment starts less than 2^31 positions after the first missing byte |
| Overflow.OverflowExactly | src/utility/reseq.go:192-214 | on a stream, an overflow emits the segments from the first taken index up to the next missing one, holds all taken beyond that, and waits there |
| Overflow.ArriveOnIndices | src/utility/reseq.go:110-151 | the arrival of any segment of a stream, early, late, repeated or awaited, does what the reference on indices says |
| Overflow.RunOnIndices | src/utility/reseq.go:110-214 | over every order of arrival with repetitions and any number of overflows, output, deliveries and state are those of the reference |
| Overflow.CalmExactly | src/utility/reseq.go:146-148 | after any number of overflows, the deliveries continue the stream without a gap if and only if the window does not overflow again |
| Overflow.RestoredAfterOverflow | src/utility/reseq.go:110-214 | once everything from the awaited segment on has arrived without another overflow, it has come out in stream order and nothing is held |
| Overflow.WrappedOnIndices | src/utility/reseq.go:110-214 | the same as the reference, for the 32-bit flow whose arrivals start within 2^31 positions of the awaited segment |
| Overflow.WrappedAfterOverflow | src/utility/reseq.go:110-214 | restoration after an overflow, for the 32-bit flow |
| Resequencer.PushIsolated | src/utility/reseq.go:110-151 | a push changes and emits for its own flow only, as that flow alone would; other packets pass unchanged |
| Resequencer.FlushIsolated | src/utility/reseq.go:156-173 | what a flush does to one flow depends neither on the others nor on the order of visits |
| Resequencer.FlowIsolation | src/utility/reseq.go:110-173 | under any interleaving and any visiting order a flow holds and emits what it would alone; packets of no flow keep their order |
| Traffic.TrafficBounded | src/utility/reseq.go:146-148 | in every reachable state every flow holds at most `window` segments and not the next expected one |
| Traffic.FlushLeavesRecent | src/utility/reseq.go:156-172 | after a flush every surviving flow was seen less than `maxAge` ago |
| Traffic.OwnFlowSurvives | src/main.go:889-892 | a packet's own flow is not reaped by the flush that follows it at the same time |
| Traffic.TrafficAccounts | src/utility/reseq.go:110-214 | accounting over all traffic, for each packet of each flow |
| Traffic.BypassAccounts | src/utility/reseq.go:112-114 | a packet of no flow is emitted as often as it was pushed |
| Traffic.OrderInTraffic | src/utility/reseq.go:126-214 | amid any traffic, the packets of a flow that one record delivered unroll, in the order they come out, onto successive ranges of integers, not empty for packets below 2^32 bytes |
| Traffic.PositionsInTraffic | src/utility/reseq.go:126-214 | amid any traffic and within range, those packets stand at increasing, non-overlapping true positions |
| Traffic.FlushIsGreedyInTraffic | src/utility/reseq.go:156-173 | amid any traffic, a flush emits for each idle flow what the greedy pass keeps, when window times packet length is at most 2^31 |
| Traffic.StreamRestoredInTraffic | src/utility/reseq.go:110-186 | restoration amid any other traffic, as an equivalence, on the packets themselves |
| Traffic.OverflowInTraffic | src/utility/reseq.go:110-214 | amid any traffic a flow that carries a stream emits what the reference on indices says |
| Traffic.NothingLostInTraffic | src/utility/reseq.go:137-214 | no loss amid any other traffic, for flows without straddling and rivals |
| ForwardReseqImpl.ReseqFlow.Take | src/utility/reseq.go:182-184 | takes one entry out and expects its successor |
| ForwardReseqImpl.ReseqFlow.Drain | src/utility/reseq.go:176-186 | the drain loop computes the drain of the flow's value; its slices denote the emitted packets |
| ForwardReseqImpl.ReseqFlow.SweepAndFind | src/utility/reseq.go:193-205 | the loop with deletion, in any order, leaves exactly the future segments and finds the nearest |
| ForwardReseqImpl.ReseqFlow.SkipGap | src/utility/reseq.go:192-214 | computes the gap skip of the flow's value |
| ForwardReseqImpl.ReseqFlow.FlushAll | src/utility/reseq.go:163-169 | computes the flush of the flow's value and always leaves the buffer empty |
| ForwardReseqImpl.ReseqFlow.SetAside | src/utility/reseq.go:141-145 | holds an early segment as a copy in a new array |
| ForwardReseqImpl.ReseqFlow.Hold | src/utility/reseq.go:140-150 | the early case, with the gap skip when the window overflows |
| ForwardReseqImpl.ReseqFlow.Accept | src/utility/reseq.go:124-150 | the three-way switch; `ip` itself is emitted but never kept |
| ForwardReseqImpl.ForwardReseq.constructor | src/utility/reseq.go:96-104 | an empty resequencer with the defaults for non-positive parameters |
| ForwardReseqImpl.ForwardReseq.FlowFor | src/utility/reseq.go:119-123 | the record for a key, a new unprimed one if there is none |
| ForwardReseqImpl.ForwardReseq.PushTo | src/utility/reseq.go:116-150 | changes the abstract state of one flow as `Arrive` says and no other |
| ForwardReseqImpl.ForwardReseq.Push | src/utility/reseq.go:110-151 | refines the push on values; keeps no reference to the packet's array |
| ForwardReseqImpl.ForwardReseq.Visit | src/utility/reseq.go:159-171 | the flush loop's body for one flow |
| ForwardReseqImpl.ForwardReseq.FlushExpired | src/utility/reseq.go:156-173 | refines the flush on values for some order that visits every flow |
| Reader.WriteAll | src/main.go:896-903 | writes exactly the bytes the slices denote, in order |
| Reader.FlushOnto | src/main.go:892 | flushing does not disturb the slices that `Push` returned |
| Reader.Turn | src/main.go:877-895 | one turn of the read loop on the shared buffer refines a push and a flush on values |
| Reader.Inbound | src/main.go:852-906 | buffer reuse is safe: what is written to the TUN is the value-level output of the received packets |
| Reader.EveryFlushIsGreedy | src/main.go:889-892 | with the configured 128 segments and 4096 bytes, every flush of every run of the reader is a greedy filter |
| Observers.RecentAppend | src/utility/reseq.go:295-302 | accepting a number keeps the window distinct and drops only the oldest of a full one |
| Observers.PreSendFlow.Remember | src/utility/reseq.go:295-302 | ring, head, count and set stay a sliding window over everything accepted |
| Observers.PreSendFlow.Observe | src/utility/reseq.go:291-307 | a packet counts as a retransmit exactly when its number is among the last 1024 accepted ones |
| Observers.PreReseqObserver.Observe | src/utility/reseq.go:37-56 | the running serial maximum and its two counters, with the reset at 65536 flows |
| Observers.PreSendGenuineObserver.Open | src/utility/reseq.go:284-290 | a 257th flow makes the observer forget all others |
| Observers.PreSendGenuineObserver.Observe | src/utility/reseq.go:277-308 | the ring observer and its three counters, on the heap, refine the observer on values |
| ObserverAgreement.NoteAgrees | src/utility/reseq.go:37-56 | one packet keeps the observers in agreement exactly when it is not a remembered number ahead of the maximum |
| ObserverAgreement.ObserversAgree | src/utility/reseq.go:277-308 | on every trace of at most 256 flows: same maxima throughout if and only if no such packet occurs, and then Genuine <= OOO <= Genuine + Retr |
| ObserverAgreement.NarrowNoSurprise | src/utility/reseq.go:303-307 | maximum, ring and arriving number within an arc of less than 2^31 exclude such packets |
| ObserverAgreement.SurpriseAround | src/utility/reseq.go:303-307 | numbers that go around the circle produce one |
| ObserverCounts.RingCounts | src/utility/reseq.go:277-308 | on every trace: Retr counts exactly the packets found among the last 1024 accepted numbers of their flow, Genuine those with a new number below the running maximum, and at most 256 flows are known, those since the last reset |
| ObserverCounts.GenuineExactly | src/utility/reseq.go:291-307 | for flows with at most 1024 different numbers in an arc of less than 2^31, Retr counts the packets whose number their flow has already carried and Genuine those with a new number below an earlier one |
| ObserverCounts.MaximumOnArcs | src/utility/reseq.go:37-56 | on every trace whose flows each stay in an arc of less than 2^31, the observer keeps the greatest number of every known flow and OOO counts exactly the packets below an earlier one |
| ObserverCounts.MaximaKnown | src/utility/reseq.go:37-48 | in every reachable state at most 65536 flows are known, those since the last reset |
| ObserverCounts.EpochBounded | src/utility/reseq.go:284-290 | a trace cut at the resets never has more flows than the limit |
| FlowHash.MixSeparatesStates | src/main.go:971 | for each byte an FNV-1a step is injective on 32-bit states |
| FlowHash.MixSeparatesBytes | src/main.go:971 | from each state different bytes lead to different states |
| FlowHash.FnvSeparates | src/main.go:969-983 | inputs that differ in exactly one byte have different hashes |
| FlowHash.CanonicalSymmetric | src/main.go:964-967 | the canonical encoding is the same for both directions |
| FlowHash.CanonicalSeparates | src/main.go:964-983 | two pairs of endpoints have one encoding if and only if they are equal or exchanged |
| FlowHash.FlowHashSym | src/main.go:950-984 | the field-by-field updates compute FNV-1a of the canonical 13 bytes, 0 for anything but IPv4 |
| HashLaws.MixIsStep | src/main.go:971 | one update is the exclusive or of the byte with the low byte of the state, as bit vectors, and then the multiplication by 16777619 modulo 2^32 |
| HashLaws.HashIsFnv1a | src/main.go:969-983 | the hash is the last of the FNV-1a states over the canonical bytes from 2166136261, and 0 for anything but IPv4 |
| HashLaws.CompareIsNumeric | src/main.go:965 | comparing addresses byte by byte is comparing big-endian numbers |
| HashLaws.CanonicalBytes | src/main.go:950-967 | the canonical bytes are both endpoints and the protocol, the smaller address first, then the smaller port; ports are read for protocols 6 and 17 only |
| HashLaws.IndexIsRemainder | src/main.go:923 | the tunnel index is the remainder of the hash by the number of tunnels |
| HashLaws.TunnelsSeparate | src/main.go:923 | with 2^k tunnels, packets whose canonical bytes differ in one place, and there in the lowest k bits, use different tunnels |
| HashLaws.TwoTunnels | src/main.go:923 | with two tunnels the index is decided by the parity of the thirteen bytes |
| HashLaws.BothTunnelsUsed | src/main.go:923 | both of two tunnels are used |
| FlowHash.DirectionsAgreeExactly | src/main.go:950-967 | an IPv4 packet and its reverse have the same canonical encoding if and only if the header length is at least 20, no ports are read, the addresses are equal, or the bytes read as ports happen to be exchanged |
| FlowHash.BothDirections | src/main.go:923 | those packets and their reverse use the same tunnel, for every tunnel count |
| FlowHash.HashOfKey | src/main.go:950-983 | the hash of a TCP packet depends on the resequencer's flow key only |
| FlowHash.SameFlowSameTunnel | src/main.go:923 | packets with equal or opposite flow keys use the same tunnel |
| FlowHash.HashSeparates | src/main.go:964-983 | packets whose canonical encodings differ in exactly one byte have different hashes |
| FlowHash.ShortHeaderAsymmetric | src/main.go:954-962 | with a header length below 20 the two directions can hash differently |
| PolicyRules.Host.DelAllTableRules | src/main.go:50-56 | at most 64 deletions: n rules leave max(0, n - 64) |
| PolicyRules.Host.DelSuppressRules | src/main.go:65-71 | at most 8 deletions |
| PolicyRules.Host.Bootstrap | src/main.go:214-233 | exactly one table rule is left if and only if at most 64 were stale, and the wanted number of suppress rules if and only if at most 8 were |
| PolicyRules.Host.GracefullyShutdown | src/main.go:245-257 | deletes the rules and empties the table |
| PolicyRules.Host.InstallRoutes | src/main.go:768-782 | on success the table holds every advertised prefix and the flag says whether 0.0.0.0/0 was among them; on failure the prefixes before the failing one are added |
| Reconnect.Establish | src/main.go:654-683 | an establishment that gets as far as the rules deletes at most 64 and 8 stale ones and adds one table rule, and one suppress rule if and only if 0.0.0.0/0 was advertised; one that does not changes no rule; the routes left in the table in each case, less those lost when a failed later tunnel closes the devices |
| Reconnect.Reconnect | src/main.go:436-508 | over every sequence of turns: gives up exactly when the budget is first exhausted, waits as prescribed, empties the table on giving up; from at most 64 and 8 stale rules, has exactly the right rules in place after every establishment and leaves none on giving up |
| Reconnect.WaitsExactly | src/main.go:463-507 | the waits from the turns alone: none after a session of ten seconds, otherwise min(2^k, 15) seconds with k counted from the last session, or from the start |
| Reconnect.TotalWaitExact | src/main.go:463-507 | when no session comes up, the waits add up to exactly the sum of min(2^i, 15) |
| Reconnect.ExhaustedMeans | src/main.go:453-501 | giving up means `max` failures in a row with no stable session among them, right after a stable session or from the start |
| Reconnect.StreakCounts | src/main.go:489-497 | the attempts counter is the number of turns since the last stable session |
| Reconnect.WaitsCount | src/main.go:465-507 | the exponent of the backoff is the number of waits since the last session came up |
| Reconnect.WaitsFromStart | src/main.go:442-465 | or since the start |
| Reconnect.TotalWait | src/main.go:463-507 | between stable sessions the waits are at most those of an uninterrupted backoff |
| Reconnect.TotalWaitBounded | src/main.go:436-508 | and at most the sum of min(2^i, 15) seconds for i from 0 to maxAttempts - 2 |
| LastAddress.LastIP | src/utility/ip.go:8-23 | the in-place byte loop yields floor(v / 2^h) * 2^h + 2^h - 1 for an address of value v with h host bits |
| LastAddress.FilledIsBlockEnd | src/utility/ip.go:12-23 | the same for the function the loop computes, for every length of address |
| LastAddress.FilledIsGreatest | src/utility/ip.go:12-23 | the result shares the prefix and is the greatest number that does |
| LastAddress.FilledIdempotent | src/utility/ip.go:12-23 | applying it again changes nothing |
| LastAddress.FilledBeyond | src/utility/ip.go:12 | an invalid prefix length of -1 sets every bit, like 0 |

## Left out

- QUIC, HTTP/3, TLS and connect-ip dialling: library calls. Their outcome is an input of the reconnect loop.
- TUN creation, netlink, sysctl and congestion-control tuning: operating-system calls.
- `deriveTunnelMTU`, configuration, logging, statistics output, random helpers, packaging: a few clamps, file reading and wrappers that would only add easy members.
- The mutex of the resequencer: `Push` and `FlushExpired` are atomic steps.
- The reader with resequencing switched off: it writes each packet straight away.
- Errors of `ReadPacket` and `dev.Write`: the first ends the loop, the second is only reported.
- Cancellation, signals and `logger.Fatal`: the reconnect loop is modelled without cancellation, so its routing claim is about the exit by exhausted budget.
- 64-bit overflow and atomicity of the global counters: they are natural numbers here, kept with the observer that updates them.
- The saturation of `time.Duration`: times are unbounded integers.
- Prefix parsing in `netip`: a prefix is given as its address bytes and its length.
