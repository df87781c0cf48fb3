# KCP engine and DNS name codec: verification model

This project models the KCP reliable-ARQ engine (`2.2.3-udp-kcp-quic/ikcp.c`, `ikcp.h`) and the DNS
name codec formed by the label encoder of `test5/dnstest.cpp` and the pointer-following decoder of
`2.3.1-coroutine/async_dns_client_noblock.c`, and proves what they keep, restore and deliver.

`dafny verify dfyconfig.toml` checks everything.

## How it is built

The engine is modelled at three levels, each proved against the next.

* **Values.** `Words` writes out the 32-bit arithmetic and the wrapping comparison `_itimediff`;
  `Arithmetic` and `Sequences` collect the facts about products, quotients and sequences.
  `Segments`, `Codec`, `Fragments`, `SendWindow`, `RecvWindow`, `Rtt`, `Congestion`, `Probe`,
  `Schedule`, `Retransmit` and `Packing` model one concern each as functions on values, and prove
  what each is for. `Engine` joins them into one control block (`Kcb`) with one function per API
  call; `Endpoint`, `FlushFacts` and `Timers` prove what holds in every run of one endpoint, for any
  bytes received, and `Outcomes` gives the fields after an input, a flush, an update and a check in
  numbers.
* **The network.** `Network` is a step relation: two endpoints and every datagram ever put out,
  which may be delivered any number of times in any order or never. `Delivery` and `Safety` keep, for
  each direction, the log of all fragments ever numbered; the serial number on the wire is a log
  position modulo 2^32. The main theorems are `Safety.DeliveredInOrder`,
  `Safety.AcknowledgedIsHeld`, `Safety.NoReceiveDeadlock`, `Progress.RoundAdvances` and
  `Progress.EverythingArrives`.
* **State.** `KcpObject.Kcp` is the control block as an object whose methods update fields and
  the output buffer in place, loop by loop, each proved equal to its `Engine` function; its queues
  are sequences. `KcpObject.Session` shows that an object with any settings, driven by any calls,
  passes through exactly the states of the value-level run and puts out its datagrams. `Queue` is the heap level of the
  intrusive lists: the pointer macros and every loop of the engine over them. `LinkedKcp` is the
  control block with its four queues as such lists: `LinkedKcp.Session` shows that after any calls
  the four rings are well linked, counted and share no node, and hold what the value-level run holds,
  and that the datagrams put out are the same.
  `AckArray` is the doubling array of pending acknowledgements.

Facts that shape the statements:

* Two-endpoint results carry a lifetime assumption (`Network.FreshWires`): when a datagram is
  delivered, nobody has numbered more than 2^31 segments since the ones it is about. This counts
  everything numbered, not what the receiver has moved on to, which makes it stricter than the
  comparisons need by at most `rcv_wnd` + 65535 segments. That nothing on the wire is too far
  ahead is proved from the windows.
* Configuration is fixed for a run. `Endpoint.ConfigOk` is what the setters leave of any arguments:
  `mtu` from 50, `rcv_wnd` from 128, `interval` in 10..5000, and `rx_minrto` in 1..60000 where it is
  assigned directly. The congestion arithmetic also needs `mtu` at most 65535 and `fastresend` at
  most 32767 (`Endpoint.CongestionOk`), and two endpoints need `rcv_wnd` below 0x7fff0000
  (`Safety.Compatible`).
* `ikcp_parse_una` stops at the first segment it keeps. Against arbitrary bytes this is not the same
  as dropping everything below `una`: `SendWindow.DropIsFilterIff` gives the exact condition and
  `SendWindow.DropIsNotFilter` an input that misses it.
* WASK and WINS segments repeat the `sn` and `ts` of the last acknowledgement written in the same
  flush; protocol.txt is silent on this, and the model follows the code.
* A comment above the send loop of the engine says sending fails when the fragments outnumber the peer's window; the
  code compares with the constant 128 (`ikcp.c:537`), and so does the model.
* The label encoder refuses labels of 63 bytes, which section 2.3.4 of RFC 1035 allows
  (`dnstest.cpp:72`); the model follows the code.
* The decoder uses only the second byte of a compression pointer: it reads the message as if each
  pointer's high six bits were clear. `Dns.ReadAt` is that reading, `Dns.NameAt` the one of section
  4.1.4 of RFC 1035; they agree when every offset is below 256 (`Dns.NearIsRead`) and may differ
  otherwise (`Dns.FarPointerMisread`). The decoder does not come to an end on a pointer to itself
  (`Dns.SelfPointer`); it comes to one exactly when it does within as many
  turns as the message has bytes (`Dns.ReadsIff`), and it leaves a dangling dot when a pointer
  after a label leads to the root (`Dns.DecodeExact`, `Dns.DotDangles`).

## Model

| member | source | states |
|---|---|---|
| Words.DiffIsInt32 | 2.2.3-udp-kcp-quic/ikcp.c:136-139 | `_itimediff` is the signed 32-bit reading of the wrapped difference |
| Words.DiffExact | 2.2.3-udp-kcp-quic/ikcp.c:136-139 | the wrapped comparison of two counters equals their true difference exactly when that fits 32 signed bits |
| Codec.HeaderFields | 2.2.3-udp-kcp-quic/protocol.txt:10-20 | each header field stands at the offset and in the width of the drawing, little-endian |
| Codec.HeaderNumbers | 2.2.3-udp-kcp-quic/ikcp.c:1003-1014 | and the numbers in it are the fields of the segment, least significant byte first |
| Codec.HeaderRoundTrip | 2.2.3-udp-kcp-quic/ikcp.c:1003-1014 | parsing an encoded segment, whatever follows it, accepts exactly that segment and continues behind it |
| Codec.ParseEncoded | 2.2.3-udp-kcp-quic/ikcp.c:843-960 | a concatenation of encoded segments parses back to exactly those segments with code 0 |
| Codec.ParseSound | 2.2.3-udp-kcp-quic/ikcp.c:849-870 | for any bytes, every accepted segment carries this conversation's id and a known command |
| Codec.RejectIs | 2.2.3-udp-kcp-quic/ikcp.c:849-870 | a header is rejected with -1 for another conversation, else with -2 for a length beyond the rest of the datagram or of 2^31 and more, else with -3 for an unknown command, and for no other reason |
| Codec.ParseStops | 2.2.3-udp-kcp-quic/ikcp.c:846-960 | parsing ends behind the last accepted segment: with 0 exactly when fewer than 24 bytes are left, else with the reason why the header there is rejected |
| Codec.ParseIsPrefix | 2.2.3-udp-kcp-quic/ikcp.c:849-870 | for any bytes, re-encoding what the parser accepted gives back a prefix of the input |
| Fragments.ChopJoins | 2.2.3-udp-kcp-quic/ikcp.c:543-563 | the pieces of a buffer concatenate to it and none exceeds `mss` |
| Fragments.ChopCount | 2.2.3-udp-kcp-quic/ikcp.c:533-539 | the piece-by-piece loop makes exactly as many pieces as the rounded-up division says |
| Fragments.SendMessage | 2.2.3-udp-kcp-quic/ikcp.c:533-565 | a message-mode send is refused, leaving the queue alone, exactly when it would need 128 fragments; otherwise it appends pieces numbered count-1..0 that concatenate to the buffer, all but the last of exactly `mss` bytes |
| Fragments.SendStream | 2.2.3-udp-kcp-quic/ikcp.c:500-565 | a stream-mode send adds exactly the buffer to the queued bytes, on refusal exactly as many bytes as the last segment lacks to `mss`; what it writes has id 0 and at most `mss` bytes |
| Fragments.StreamFills | 2.2.3-udp-kcp-quic/ikcp.c:500-565 | a stream-mode send first fills the last queued segment up to `mss`; what exceeds that room is cut into segments of exactly `mss` bytes but for the last, as many as the rounded-up quotient says, and is refused exactly when that is 128 or more |
| Fragments.MergeMatchesPeek | 2.2.3-udp-kcp-quic/ikcp.c:388-466 | the loop of `ikcp_peeksize` adds up exactly the bytes the merge loop of `ikcp_recv` collects, for any queue |
| KcpObject.Kcp.TakeMessage | 2.2.3-udp-kcp-quic/ikcp.c:364-442 | size check, merge and drain give the engine's receive, whose answers `RecvWindow.RecvIs` states, and on the way the assertion `len == peeksize` holds |
| Fragments.MergeRestores | 2.2.3-udp-kcp-quic/ikcp.c:388-413 | on a queue that starts on a message boundary, a message is readable exactly when all its fragments are there, and the merge returns exactly its bytes |
| SendWindow.DropCountIs | 2.2.3-udp-kcp-quic/ikcp.c:644-659 | `ikcp_parse_una` drops the longest front part that compares below `una` |
| SendWindow.DropIsFilterIff | 2.2.3-udp-kcp-quic/ikcp.c:644-659 | the early-exit loop removes exactly the segments below `una` if and only if the stated check on the two ends of the buffer holds |
| SendWindow.DropIsNotFilter | 2.2.3-udp-kcp-quic/ikcp.c:644-659 | the buffer of a sender that has just flushed its first two segments, and a `una` for which it does not |
| SendWindow.ScanAckIsRemoval | 2.2.3-udp-kcp-quic/ikcp.c:626-641 | inside the window the early-exit scan of `ikcp_parse_ack` removes exactly the acknowledged segment |
| SendWindow.ScanSkipIsMap | 2.2.3-udp-kcp-quic/ikcp.c:674-691 | inside the window the early-exit scan of `ikcp_parse_fastack` counts a skip on exactly the segments below |
| SendWindow.TakeAckIs | 2.2.3-udp-kcp-quic/ikcp.c:619-642 | an acknowledgement outside the window does nothing, one inside removes its segment and moves `snd_una` to the new head |
| SendWindow.TakeAckExact | 2.2.3-udp-kcp-quic/ikcp.c:619-642 | a serial number is in flight after an acknowledgement exactly when it was before and is not the valid acknowledged one |
| SendWindow.TakeFastAckIs | 2.2.3-udp-kcp-quic/ikcp.c:664-692 | a skip is counted on exactly the segments in flight below a serial number inside the window, on none otherwise |
| SendWindow.InRangeExact | 2.2.3-udp-kcp-quic/ikcp.c:623-624 | the wrapped guard admits exactly the serial numbers of the window |
| SendWindow.OnWireKeeps | 2.2.3-udp-kcp-quic/ikcp.c:872-883 | any segment received keeps `snd_buf` strictly increasing inside the window with `snd_una` at its head, and never widens it |
| SendWindow.OnWiresReleases | 2.2.3-udp-kcp-quic/ikcp.c:872-883 | a list of received segments takes out of flight exactly the serial numbers below one of their `una`s and those they acknowledge, when no `una` is far behind the window |
| SendWindow.WindowTest | 2.2.3-udp-kcp-quic/ikcp.c:1148 | the wrapped loop guard is exactly: fewer than `cwnd` serial numbers in use |
| SendWindow.MoveIsBatch | 2.2.3-udp-kcp-quic/ikcp.c:1148-1170 | moving segment by segment equals admitting at once as many as the window has room for, numbered consecutively |
| SendWindow.MoveKeeps | 2.2.3-udp-kcp-quic/ikcp.c:1148-1170 | admission keeps the send-window invariant |
| RecvWindow.InWindowExact | 2.2.3-udp-kcp-quic/ikcp.c:760-761 | the two wrapped comparisons admit exactly the serial numbers of the receive window |
| RecvWindow.InsertSorted | 2.2.3-udp-kcp-quic/ikcp.c:767-789 | the insertion from the tail keeps `rcv_buf` strictly increasing without duplicates |
| RecvWindow.InsertMembers | 2.2.3-udp-kcp-quic/ikcp.c:767-789 | it loses nothing and adds nothing else |
| RecvWindow.InsertPresent | 2.2.3-udp-kcp-quic/ikcp.c:767-789 | afterwards the serial number is present, and the segment itself unless its number was already taken |
| RecvWindow.DrainKeeps | 2.2.3-udp-kcp-quic/ikcp.c:797-809 | moving in-order segments to the queue restores the invariant: the head of `rcv_buf` is the expected one only when the queue is full |
| RecvWindow.DrainIs | 2.2.3-udp-kcp-quic/ikcp.c:797-809 | exactly the front of `rcv_buf` that is numbered on from `rcv_nxt` without a gap moves, as far as the queue has room |
| RecvWindow.OnWireKeeps | 2.2.3-udp-kcp-quic/ikcp.c:908-938 | any segment received keeps the receive-window invariant, and data is acknowledged exactly when it is not beyond the window |
| RecvWindow.RecvKeeps | 2.2.3-udp-kcp-quic/ikcp.c:361-442 | reading keeps it |
| RecvWindow.RecvIs | 2.2.3-udp-kcp-quic/ikcp.c:361-442 | a read answers -1 exactly when nothing is queued, -2 exactly when the first message is not complete, -3 exactly when it is longer than the buffer, with nothing changed; otherwise the number of its bytes, these bytes, and whether a full queue has room again |
| RecvWindow.RecvMessage | 2.2.3-udp-kcp-quic/ikcp.c:361-442 | on a queue that starts with fragments of a message, all of them there, a buffer of at least its size gets the message and its size, the exact fit included, and a smaller one -3; before that every buffer gets -2 |
| RecvWindow.PeekIsPure | 2.2.3-udp-kcp-quic/ikcp.c:364-441 | a peek changes nothing, in spite of the loop that moves segments at its end |
| RecvWindow.MemoryBound | 2.2.3-udp-kcp-quic/ikcp.c:754-809 | at most 2 * `rcv_wnd` segments are ever held, for any bytes received |
| Rtt.RtoClamped | 2.2.3-udp-kcp-quic/ikcp.c:601-603 | for any sample the timeout lies between the configured minimum and 60000 |
| Rtt.SampleExact | 2.2.3-udp-kcp-quic/ikcp.c:587-604 | below 2^28 nothing overflows: the 32-bit estimator equals the unbounded one and stays between the extreme samples |
| Rtt.SamplesExact | 2.2.3-udp-kcp-quic/ikcp.c:587-604 | the same over every sequence of samples: the estimator is the unbounded one |
| Rtt.SamplesBounded | 2.2.3-udp-kcp-quic/ikcp.c:587-604 | over every sequence of samples the smoothed value lies between the extreme ones, with the exact timeout |
| Rtt.Settles | 2.2.3-udp-kcp-quic/ikcp.c:587-604 | under a constant sample r the smoothed value reaches and keeps [r-7, r] and the variation falls to at most 7, within an explicit number of samples |
| Congestion.CreepExact | 2.2.3-udp-kcp-quic/ikcp.c:978-986 | in congestion avoidance no product or sum wraps, the window grows by at most 2 and `incr` stays within one segment of `cwnd * mss` |
| Congestion.GrowKeeps | 2.2.3-udp-kcp-quic/ikcp.c:970-994 | growth keeps the congestion invariant and raises the window by 0 to 2 |
| Congestion.GrowIs | 2.2.3-udp-kcp-quic/ikcp.c:970-994 | the new window in numbers: one segment more below the threshold, else `incr + mss*mss/incr + mss/16` bytes and the segments they make up, capped at the peer's window |
| Congestion.SettleKeeps | 2.2.3-udp-kcp-quic/ikcp.c:1254-1275 | the reductions of a flush keep it and leave a window of at least 1 |
| Congestion.SettleIs | 2.2.3-udp-kcp-quic/ikcp.c:1254-1275 | the reduced window in numbers: 1 and half of what was allowed after a timeout, half of what is in flight plus the skips after a fast retransmission alone, the threshold at least 2 |
| Probe.TickKeeps | 2.2.3-udp-kcp-quic/ikcp.c:1087-1110 | the probe wait is 0 or in 7000..120000, grows by half up to the cap, and a probe is asked for only when the timer has run out |
| Probe.ProbesKeepComing | 2.2.3-udp-kcp-quic/ikcp.c:1087-1110 | with the window closed and flushes at most g apart, the first probe follows within 7000 + g and each next one within 120000 + g |
| Schedule.PacketWaitIs | 2.2.3-udp-kcp-quic/ikcp.c:1344-1351 | the scan yields the least time to a retransmission, 0 exactly when one is due |
| Schedule.UpdateExact | 2.2.3-udp-kcp-quic/ikcp.c:1284-1309 | when an update flushes and when the next flush is due then: an interval later on the same grid while less than an interval late, an interval from now otherwise |
| Schedule.CheckDue | 2.2.3-udp-kcp-quic/ikcp.c:1321-1351 | the oracle says now before the first update, when a flush or a segment is due, or when the clock is 10 seconds or more off |
| Schedule.CheckExact | 2.2.3-udp-kcp-quic/ikcp.c:1342-1356 | otherwise its answer lies ahead by exactly the least of the time to the next flush, the times to the deadlines in flight, and an interval |
| Schedule.CheckSaysNow | 2.2.3-udp-kcp-quic/ikcp.c:1284-1357 | whenever `ikcp_update` would flush now, `ikcp_check` answers now |
| Schedule.CheckIsSound | 2.2.3-udp-kcp-quic/ikcp.c:1284-1357 | any number of updates before the answered time: none flushes and only `current` changes |
| Schedule.CheckIsTight | 2.2.3-udp-kcp-quic/ikcp.c:1321-1357 | with nothing in flight and a flush at most an interval away, an update at the answered time flushes |
| Schedule.FlushRate | 2.2.3-udp-kcp-quic/ikcp.c:1295-1308 | on a non-decreasing clock read at most 2^31 - 1 apart, at most 1 + (T - T0) / interval flushes happen by time T |
| Schedule.NextFlushAhead | 2.2.3-udp-kcp-quic/ikcp.c:1302-1306 | after every update on such a clock the next flush lies ahead by at most an interval |
| Retransmit.NoteAllIs | 2.2.3-udp-kcp-quic/ikcp.c:1186-1246 | the accumulators of the flush loop (`xmit`, `state`, `change`, `lost`) say how many segments timed out and whether any is dead, fast or lost |
| Retransmit.AttemptKeeps | 2.2.3-udp-kcp-quic/ikcp.c:1186-1225 | a visit never changes number, fragment, payload or conversation; what is sent carries this flush's stamps, what is not sent is unchanged |
| Retransmit.TimerBounds | 2.2.3-udp-kcp-quic/ikcp.c:1189-1218 | over any list of flushes that meet a segment, after k <= 15 timeouts its timeout is at most 60000 * 2^k, without `nodelay` at least 2^k times the first, and the next deadline is not due |
| Packing.PackConserves | 2.2.3-udp-kcp-quic/ikcp.c:1227-1252 | packing puts every segment into exactly one datagram, in order |
| Packing.PackFits | 2.2.3-udp-kcp-quic/ikcp.c:1227-1252 | every datagram is non-empty and at most `mtu` bytes when every segment is |
| Packing.PackTight | 2.2.3-udp-kcp-quic/ikcp.c:1227-1252 | no datagram could have taken the first segment of the next one |
| Packing.PackRoundTrip | 2.2.3-udp-kcp-quic/ikcp.c:843-960 | parsing the packed datagrams in order gives back exactly the segments, each datagram ending cleanly |
| Endpoint.InputKeeps | 2.2.3-udp-kcp-quic/ikcp.c:828-997 | `ikcp_input` keeps the endpoint invariant for any bytes whatever |
| Endpoint.MaxAckIsGreatest | 2.2.3-udp-kcp-quic/ikcp.c:884-900 | among acknowledgements in one half circle the running maximum is the greatest, and is one of them |
| Endpoint.InputSkips | 2.2.3-udp-kcp-quic/ikcp.c:962-964 | a datagram taken in whole raises `fastack` by one on exactly the surviving segments below its greatest acknowledgement when that lies in the window, and on none otherwise |
| Endpoint.InputSkipsBelowGreatest | 2.2.3-udp-kcp-quic/ikcp.c:884-964 | when the acknowledgements of a datagram lie on one half circle, repeated old ones included, the skips are counted below its greatest one |
| Endpoint.InputSkipsNothing | 2.2.3-udp-kcp-quic/ikcp.c:962-964 | a datagram without acknowledgements counts no skip |
| Endpoint.InputGrowth | 2.2.3-udp-kcp-quic/ikcp.c:970-994 | one `ikcp_input` raises `cwnd` by at most 2 |
| Endpoint.FlushCounters | 2.2.3-udp-kcp-quic/ikcp.c:1254-1275 | a flush that runs keeps the congestion counters consistent and leaves `cwnd` at least 1 |
| Endpoint.FlushRoundTrip | 2.2.3-udp-kcp-quic/ikcp.c:1070-1252 | every datagram a flush puts out is non-empty, at most `mtu`, whole segments, and parsing them in order gives exactly the segments written |
| Endpoint.EveryRun | 2.2.3-udp-kcp-quic/ikcp.c:361-1309 | in every state of every run, for any bytes, windows, timers and segment sizes are within bounds |
| Endpoint.EveryRunCong | 2.2.3-udp-kcp-quic/ikcp.c:970-1275 | in every run in which no segment is skipped 2^32 - 1 times `incr` is `cwnd * mss` to within a segment and `ssthresh` at least 2 |
| Endpoint.EveryRunCounters | 2.2.3-udp-kcp-quic/ikcp.c:684-686 | the skip counts of a segment never exceed the number of calls, so every run of fewer than 2^32 - 1 calls is such a run |
| Endpoint.UnaNeverBack | 2.2.3-udp-kcp-quic/ikcp.c:607-617 | no call moves `snd_una` backwards or lets the window span more than 65535 |
| FlushFacts.DataWires | 2.2.3-udp-kcp-quic/ikcp.c:1186-1240 | the data written is one image, with this flush's stamps, of every due segment, in buffer order |
| FlushFacts.FlushLayout | 2.2.3-udp-kcp-quic/ikcp.c:1070-1246 | a flush writes the pending acknowledgements in arrival order with echoed timestamps, then WASK and WINS if flagged, with the number and timestamp of the last acknowledgement, then exactly the due segments |
| FlushFacts.FlushTellsWindow | 2.2.3-udp-kcp-quic/ikcp.c:1016-1065 | with `rcv_wnd` at most 65535 every segment written carries the exact free window and the next expected number |
| FlushFacts.QuestionNoted | 2.2.3-udp-kcp-quic/ikcp.c:939-942 | a WASK anywhere among the accepted segments leaves an answer owed |
| FlushFacts.ReopeningNoted | 2.2.3-udp-kcp-quic/ikcp.c:434-439 | a read that makes room in a full queue leaves an answer owed |
| FlushFacts.OwedUntilFlush | 2.2.3-udp-kcp-quic/ikcp.c:1123-1134 | an owed answer is written by the next flush that runs, whatever is called before it |
| Timers.NothingLeftDue | 2.2.3-udp-kcp-quic/ikcp.c:1186-1246 | after a flush every segment in flight has been sent and its deadline lies ahead, whatever its number of transmissions, as long as no timeout had grown beyond 60000 * 2^14 |
| Timers.RunIsVisits | 2.2.3-udp-kcp-quic/ikcp.c:1148-1246 | in every run, for any bytes received, every segment in flight is what the flushes since its admission have made of it, each with the skip count it met |
| Timers.TimersOverRun | 2.2.3-udp-kcp-quic/ikcp.c:1186-1219 | so in every run a segment with k <= 15 timeouts has a timeout of at most 60000 * 2^k, without `nodelay` at least 2^k times the first, and is not due after a flush |
| FlushFacts.ProbeOverRun | 2.2.3-udp-kcp-quic/ikcp.c:1087-1134 | in a run of any calls with the window closed, the flushes alone drive the probe timer |
| FlushFacts.QuestionsKeepComing | 2.2.3-udp-kcp-quic/ikcp.c:1087-1121 | in such a run a WASK is written within 7000 + g of the flush that arms the timer and within 120000 + g of the previous one |
| FlushFacts.SleepsUntilChecked | 2.2.3-udp-kcp-quic/ikcp.c:1321-1357 | updates before the time `ikcp_check` answers leave the whole control block alone but for `current`, and write nothing |
| Outcomes.CreateIs | 2.2.3-udp-kcp-quic/ikcp.c:231-294 | the numbers of the start state |
| Outcomes.InputSamples | 2.2.3-udp-kcp-quic/ikcp.c:876-880 | for any bytes, the estimator takes exactly the samples `current - ts` of the accepted acknowledgements whose `ts` is not ahead of `current`, in order |
| Outcomes.RunSamples | 2.2.3-udp-kcp-quic/ikcp.c:876-880 | over a whole run nothing else moves it |
| Outcomes.RunEstimates | 2.2.3-udp-kcp-quic/ikcp.c:587-604 | so in every run whose samples lie in lo..hi below 2^28 the estimator is the unbounded one, the smoothed value lies in lo..hi and the timeout is exact |
| Outcomes.InputCode | 2.2.3-udp-kcp-quic/ikcp.c:838-841 | the code is -1 for a datagram shorter than a header and the parser's otherwise |
| Outcomes.InputWindow | 2.2.3-udp-kcp-quic/ikcp.c:872 | the peer's window is what the last accepted segment says |
| Outcomes.InputReleases | 2.2.3-udp-kcp-quic/ikcp.c:872-883 | a datagram, rejected half-way or not, takes out of flight exactly the serial numbers below the `una` of an accepted segment and those acknowledged, when no `una` is far behind the window |
| Outcomes.InputCong | 2.2.3-udp-kcp-quic/ikcp.c:970-994 | the congestion window moves only when the whole datagram was accepted, `snd_una` has advanced and the window is below the peer's, and then by the exact step |
| Outcomes.FlushAdmits | 2.2.3-udp-kcp-quic/ikcp.c:1137-1170 | what a flush leaves in flight is at most the larger of what was in flight and each of `snd_wnd`, the peer's window and, unless switched off, `cwnd`; when something stays queued it reaches one of them |
| Outcomes.FlushVisits | 2.2.3-udp-kcp-quic/ikcp.c:1148-1225 | what a flush makes of every segment in flight and of every segment it admits, in full: deadline, timeout, skip count, transmissions and stamps in each of the four cases |
| Outcomes.FlushCounts | 2.2.3-udp-kcp-quic/ikcp.c:1198 | the retransmission counter grows by the number of segments that timed out, modulo 2^32 |
| Outcomes.FlushDead | 2.2.3-udp-kcp-quic/ikcp.c:1242-1244 | `state` becomes 0xffffffff exactly when a segment that goes out has been sent `dead_link` times or more, and stays otherwise |
| Outcomes.FlushCong | 2.2.3-udp-kcp-quic/ikcp.c:1254-1275 | the congestion window after a flush, in terms of whether a segment in flight has timed out or was skipped enough |
| Outcomes.FlushSettles | 2.2.3-udp-kcp-quic/ikcp.c:1045-1134 | after a flush that runs no acknowledgement is pending and no window segment owed; the peer's window, the rest of the receive window, the estimator, the clock and the settings are as they were |
| Outcomes.FlushWaits | 2.2.3-udp-kcp-quic/ikcp.c:1059-1060 | before the first update a flush does nothing |
| Outcomes.FlushTight | 2.2.3-udp-kcp-quic/ikcp.c:1227-1252 | no datagram of a flush could have taken the first segment of the next |
| Outcomes.RecvElse | 2.2.3-udp-kcp-quic/ikcp.c:434-441 | a read changes nothing but the receive window and the answer owed, and that exactly when a full queue has room again |
| Outcomes.UpdateFlushes | 2.2.3-udp-kcp-quic/ikcp.c:1284-1309 | an update is a flush with the clock set, or the clock set and nothing else, by the exact schedule |
| Outcomes.CheckIs | 2.2.3-udp-kcp-quic/ikcp.c:1321-1357 | the time `ikcp_check` answers, exactly, in terms of the clock and the deadlines in flight |
| Delivery.DataStored | 2.2.3-udp-kcp-quic/ikcp.c:908-938 | storing a data segment continues the log, loses nothing, and queues an acknowledgement only for what is then held |
| Delivery.UnaAccounted | 2.2.3-udp-kcp-quic/ikcp.c:873-874 | a cumulative acknowledgement releases only what the receiver holds |
| Delivery.AckAccounted | 2.2.3-udp-kcp-quic/ikcp.c:882-883 | a single acknowledgement of a held fragment releases only that fragment |
| Delivery.LogBound | 2.2.3-udp-kcp-quic/ikcp.c:1137-1148 | no sender has numbered more than `rcv_wnd` + 65535 fragments beyond its receiver |
| Delivery.MoveTracks | 2.2.3-udp-kcp-quic/ikcp.c:1148-1170 | admitted fragments extend the log under the serial numbers they are given |
| Safety.SendDir | 2.2.3-udp-kcp-quic/ikcp.c:490-566 | a send in either mode keeps the relation between log, queue and accepted bytes |
| Safety.RecvNext | 2.2.3-udp-kcp-quic/ikcp.c:388-413 | a successful read returns the next message, in stream mode the next bytes |
| Safety.FlushStep | 2.2.3-udp-kcp-quic/ikcp.c:1045-1276 | a flush keeps the two-endpoint invariant, and so do the datagrams it puts out |
| Safety.DeliverStep | 2.2.3-udp-kcp-quic/ikcp.c:828-997 | delivering any datagram ever put out keeps it, however often and in whatever order |
| Safety.RunInv | 2.2.3-udp-kcp-quic/ikcp.c:361-1309 | the two-endpoint invariant holds in every state of every run |
| Safety.DeliveredInOrder | 2.2.3-udp-kcp-quic/ikcp.c:361-1276 | in every run, under any loss, duplication and reordering, the bytes received are a prefix of the bytes accepted, and in message mode the messages received are a prefix of the messages sent |
| Safety.AcknowledgedIsHeld | 2.2.3-udp-kcp-quic/ikcp.c:873-936 | in every run, in both directions, whatever the sender has numbered and dropped is held by the receiver; every pending or travelling ACK stands for a log position the receiver holds, and every `una` for one no greater than what it has moved on |
| Safety.NoReceiveDeadlock | 2.2.3-udp-kcp-quic/ikcp.c:447-469 | in every run and at both endpoints the receive queue starts on a message boundary, and a full one holds a readable message |
| Safety.ReadsAnswered | 2.2.3-udp-kcp-quic/ikcp.c:361-442 | in every run and at both endpoints a read is answered by the next message in line: -1, -2 or -3 exactly when nothing is queued, a fragment is missing or the buffer is smaller than the message, and otherwise its size and bytes |
| Progress.OldestDueIff | 2.2.3-udp-kcp-quic/ikcp.c:1137-1215 | exactly when a flush sends the oldest segment it then has in flight: it was never sent, has timed out or is to be resent fast, or nothing is in flight, something is queued and none of the windows in force is 0 |
| Progress.FlushSends | 2.2.3-udp-kcp-quic/ikcp.c:1148-1240 | such a flush puts it into one of its datagrams, be it for the first time or again |
| Progress.DeliveryNotes | 2.2.3-udp-kcp-quic/ikcp.c:908-938 | a delivered segment that is not beyond the receive window, new or old, is noted for acknowledgement |
| Progress.FlushAnswers | 2.2.3-udp-kcp-quic/ikcp.c:1072-1082 | a flush acknowledges everything noted |
| Progress.DeliverySettles | 2.2.3-udp-kcp-quic/ikcp.c:619-642 | a delivered acknowledgement takes its segment out of flight, whatever else the datagram says |
| Progress.OldestInReach | 2.2.3-udp-kcp-quic/ikcp.c:797-809 | unless the receiver's queue is full, the oldest segment in flight is not beyond its window |
| Progress.RoundAdvances | 2.2.3-udp-kcp-quic/ikcp.c:828-1276 | in every run, when a flush sends its oldest segment, that reaches a peer with room, the peer flushes, and its acknowledgement of it comes back, at any time before or after that flush, then `snd_una` has advanced, whatever else happened in between |
| Progress.RoundsAdvance | 2.2.3-udp-kcp-quic/ikcp.c:828-1276 | m such rounds one after the other advance it by at least m |
| Progress.EverythingArrives | 2.2.3-udp-kcp-quic/ikcp.c:490-1276 | after as many fair rounds as fragments were queued or in flight, the peer holds every one of them |
| KcpObject.Kcp.constructor | 2.2.3-udp-kcp-quic/ikcp.c:231-294 | a new object has the default settings, in numbers, and is in the engine's start state |
| KcpObject.Kcp.Send | 2.2.3-udp-kcp-quic/ikcp.c:490-566 | updates the queue in place to what the engine's send gives (`Fragments.SendMessage`, `Fragments.StreamFills`), -1 and no change for a negative length |
| KcpObject.Kcp.PeekSize | 2.2.3-udp-kcp-quic/ikcp.c:447-469 | the loop computes the size of the first message, -1 if it is not complete |
| KcpObject.Kcp.Recv | 2.2.3-udp-kcp-quic/ikcp.c:361-442 | state, code and bytes are those of the engine's receive (`RecvWindow.RecvIs`, `Outcomes.RecvElse`) |
| KcpObject.Kcp.UpdateAck | 2.2.3-udp-kcp-quic/ikcp.c:587-604 | the statements compute one sample of the estimator |
| KcpObject.Kcp.ParseUna | 2.2.3-udp-kcp-quic/ikcp.c:644-659 | the loop leaves what the front-dropping scan leaves, with the counter kept |
| KcpObject.Kcp.ParseAck | 2.2.3-udp-kcp-quic/ikcp.c:619-642 | the loop removes what the acknowledgement scan removes |
| KcpObject.Kcp.ParseFastack | 2.2.3-udp-kcp-quic/ikcp.c:664-692 | the loop counts the skips of the fast-acknowledgement scan |
| KcpObject.Kcp.ParseData | 2.2.3-udp-kcp-quic/ikcp.c:754-815 | window test, insertion from the tail and drain give the engine's receive state |
| KcpObject.Kcp.Input | 2.2.3-udp-kcp-quic/ikcp.c:828-997 | state and code are those of the engine's input (`Outcomes.InputSamples`, `Outcomes.InputReleases`, `Outcomes.InputCong`), for any bytes, including a rejection half-way |
| KcpObject.Kcp.EncodeHeader | 2.2.3-udp-kcp-quic/ikcp.c:1003-1014 | byte-wise writes into the buffer append exactly the 24 header bytes |
| KcpObject.Kcp.PutSegment | 2.2.3-udp-kcp-quic/ikcp.c:1227-1240 | make room, encode, copy: the buffer and the output advance by one step of the packing |
| KcpObject.Kcp.FlushAcks | 2.2.3-udp-kcp-quic/ikcp.c:1072-1082 | the loop writes one acknowledgement per pending entry |
| KcpObject.Kcp.MoveQueue | 2.2.3-udp-kcp-quic/ikcp.c:1148-1170 | the loop admits what the engine admits |
| KcpObject.Kcp.Visit | 2.2.3-udp-kcp-quic/ikcp.c:1187-1226 | the branches compute one turn of a segment |
| KcpObject.Kcp.FlushData | 2.2.3-udp-kcp-quic/ikcp.c:1186-1246 | the loop gives every segment its turn and writes those that are due |
| KcpObject.Kcp.Flush | 2.2.3-udp-kcp-quic/ikcp.c:1045-1276 | the whole new state and the datagrams put out are those of the engine's flush (`Outcomes.FlushAdmits`, `Outcomes.FlushVisits`, `Outcomes.FlushCong`, `FlushFacts.FlushLayout`) |
| KcpObject.Kcp.Update | 2.2.3-udp-kcp-quic/ikcp.c:1284-1309 | likewise for update |
| KcpObject.Kcp.Check | 2.2.3-udp-kcp-quic/ikcp.c:1321-1357 | the loop computes the engine's answer (`Outcomes.CheckIs`) |
| KcpObject.Kcp.SetMtu | 2.2.3-udp-kcp-quic/ikcp.c:1361-1374 | values below 50 are refused; otherwise `mtu`, `mss` and the buffer change together |
| KcpObject.Kcp.WndSize | 2.2.3-udp-kcp-quic/ikcp.c:1411-1422 | positive arguments set the windows, the receive window at least 128 |
| KcpObject.Kcp.NoDelay | 2.2.3-udp-kcp-quic/ikcp.c:1384-1408 | each non-negative argument sets its field, the interval clamped to 10..5000 |
| KcpObject.EveryConfigSet | 2.2.3-udp-kcp-quic/ikcp.c:1361-1422 | the three setters and the fields an application assigns reach every configuration the results are about |
| KcpObject.SettingsOk | 2.2.3-udp-kcp-quic/ikcp.c:1361-1422 | and no other, whatever their arguments |
| KcpObject.Session | 2.2.3-udp-kcp-quic/ikcp.c:231-1309 | an object with any settings, driven by any sequence of calls, goes through the states of the value-level run, puts out exactly its datagrams and keeps the invariant, so no call finds its preconditions unmet |
| Queue.AddBehind | 2.2.3-udp-kcp-quic/ikcp.h:165-167 | `IQUEUE_ADD` turns a well-linked ring into the well-linked ring with the node inserted behind the given one |
| Queue.AddTail | 2.2.3-udp-kcp-quic/ikcp.h:169-171 | `IQUEUE_ADD_TAIL` appends to the ring |
| Queue.Del | 2.2.3-udp-kcp-quic/ikcp.h:175-178 | `IQUEUE_DEL` removes the node from the ring and clears its pointers |
| Queue.List.ParseUna | 2.2.3-udp-kcp-quic/ikcp.c:644-659 | deleting heap nodes while walking refines the front-dropping scan, counter included |
| Queue.List.ParseAck | 2.2.3-udp-kcp-quic/ikcp.c:626-641 | the walk over heap nodes refines the acknowledgement scan |
| Queue.List.ParseFastAck | 2.2.3-udp-kcp-quic/ikcp.c:674-691 | updating segments in place along the walk refines the fast-acknowledgement scan and leaves the links alone |
| Queue.List.Insert | 2.2.3-udp-kcp-quic/ikcp.c:767-789 | the backward walk and insertion refine the insertion on sequences |
| Queue.List.Append | 2.2.3-udp-kcp-quic/ikcp.c:547-558 | a new segment goes to the tail, counted, on a fresh node |
| Queue.List.ReplaceTail | 2.2.3-udp-kcp-quic/ikcp.c:505-526 | the stream-mode top-up links a new last segment and takes the old one out, the counter unchanged |
| Queue.List.Send | 2.2.3-udp-kcp-quic/ikcp.c:500-565 | the loops over `snd_queue` refine the send of the value model (`Fragments.SendMessage`, `Fragments.StreamFills`) |
| Queue.List.PeekSize | 2.2.3-udp-kcp-quic/ikcp.c:447-469 | the walk computes the size of the first message |
| Queue.List.Merge | 2.2.3-udp-kcp-quic/ikcp.c:388-413 | deleting nodes while merging returns the message and leaves the rest, or everything when peeking |
| Queue.List.Visit | 2.2.3-udp-kcp-quic/ikcp.c:1186-1225 | the walk gives every segment in flight its turn, in place, links unchanged |
| Queue.List.NextDue | 2.2.3-udp-kcp-quic/ikcp.c:1344-1351 | the read-only walk of `ikcp_check` finds the least time to a retransmission, 0 exactly when one is due |
| Queue.MoveQueue | 2.2.3-udp-kcp-quic/ikcp.c:1148-1170 | moving nodes from `snd_queue` to `snd_buf` and stamping them there refines the admission of the value model |
| Queue.MoveAvailable | 2.2.3-udp-kcp-quic/ikcp.c:797-809 | moving nodes between two lists refines the drain of the value model; the lists stay apart and hold no other nodes |
| LinkedKcp.Sender.Flush | 2.2.3-udp-kcp-quic/ikcp.c:1148-1225 | the two loops of a flush leave the two send queues as the value model says, apart and on their own nodes |
| LinkedKcp.Receiver.Recv | 2.2.3-udp-kcp-quic/ikcp.c:361-442 | peek, merge and drain on the two receive queues are the receive of the value model (`RecvWindow.RecvIs`) |
| LinkedKcp.Receiver.TakeData | 2.2.3-udp-kcp-quic/ikcp.c:908-938 | window test, insertion and drain likewise |
| LinkedKcp.ControlBlock.Send | 2.2.3-udp-kcp-quic/ikcp.c:490-566 | the call keeps the four rings well linked, counted and apart, and their segments are those of the engine's send |
| LinkedKcp.ControlBlock.Recv | 2.2.3-udp-kcp-quic/ikcp.c:361-442 | likewise for receive |
| LinkedKcp.ControlBlock.Input | 2.2.3-udp-kcp-quic/ikcp.c:828-997 | likewise for input, for any bytes |
| LinkedKcp.ControlBlock.Flush | 2.2.3-udp-kcp-quic/ikcp.c:1045-1276 | likewise for flush, and the datagrams are the engine's |
| LinkedKcp.ControlBlock.Update | 2.2.3-udp-kcp-quic/ikcp.c:1284-1309 | likewise for update |
| LinkedKcp.ControlBlock.Check | 2.2.3-udp-kcp-quic/ikcp.c:1321-1357 | the answer is the engine's, and nothing changes |
| LinkedKcp.ControlBlock.Release | 2.2.3-udp-kcp-quic/ikcp.c:304-324 | every ring is left empty and well linked |
| LinkedKcp.QueuesApart | 2.2.3-udp-kcp-quic/ikcp.c:231-294 | in a valid control block the four lists are well linked, pairwise without a common node, and all four counters equal the lengths of the engine's queues |
| LinkedKcp.Session | 2.2.3-udp-kcp-quic/ikcp.c:231-1309 | so they are after any sequence of calls, hold what the value-level run holds, and the datagrams put out are those of that run |
| SendWindow.ScanAckStops | 2.2.3-udp-kcp-quic/ikcp.c:626-641 | where the acknowledgement scan stops determines what it leaves |
| SendWindow.ScanSkipStops | 2.2.3-udp-kcp-quic/ikcp.c:674-691 | where the fast-acknowledgement scan stops determines which segments it has counted |
| RecvWindow.InsertStops | 2.2.3-udp-kcp-quic/ikcp.c:767-789 | where the tail scan stops determines where the segment goes, or that it is a repeat |
| AckArray.AckList.Grow | 2.2.3-udp-kcp-quic/ikcp.c:708-734 | reallocation to the next capacity 8, 16, 32, ... keeps every pending pair |
| AckArray.AckList.Push | 2.2.3-udp-kcp-quic/ikcp.c:703-739 | the list grows by exactly the new pair |
| AckArray.AckList.Get | 2.2.3-udp-kcp-quic/ikcp.c:741-745 | the pair read is the one at that position |
| Dns.EncodeName | test5/dnstest.cpp:55-88 | the loops compute the encoding, -2 for the empty name with the vector left alone, -1 at the first bad label |
| Dns.EncodeExact | test5/dnstest.cpp:55-88 | a name is accepted exactly when it is the dotted join of labels of 1 to 62 bytes with at most one dot more, and then exactly these labels are written |
| Dns.EncodeRefuses | test5/dnstest.cpp:55-88 | the empty name is refused with -2 and the output left alone, any other with -1 at the first label that has not 1 to 62 bytes, behind the labels in front of it |
| Dns.ReadsIff | 2.3.1-coroutine/async_dns_client_noblock.c:160-194 | the decoder comes to an end if and only if it does so within as many turns as the message has bytes, and the name read does not depend on the bound |
| Dns.SelfPointer | 2.3.1-coroutine/async_dns_client_noblock.c:169-178 | at a pointer to itself it never does |
| Dns.NearIsRead | 2.3.1-coroutine/async_dns_client_noblock.c:169-178 | a name of section 4.1.4 of RFC 1035 whose pointer offsets are below 256 is what the decoder reads |
| Dns.FarPointerMisread | 2.3.1-coroutine/async_dns_client_noblock.c:169-178 | a message with a pointer to offset 256 for which it is not |
| Dns.ParseName | 2.3.1-coroutine/async_dns_client_noblock.c:160-194 | on every message on which it comes to an end, the recursive decoder writes exactly the text of the name it reads behind what is there, and touches nothing else |
| Dns.TextIsLabels | 2.3.1-coroutine/async_dns_client_noblock.c:160-194 | for every such message the text is the dotted join of the labels met, plus a dot exactly when the last pointer leads to a bare root after a label |
| Dns.DecodeExact | 2.3.1-coroutine/async_dns_client_noblock.c:160-194 | for every such message the text is the dotted name if and only if the name is empty or does not end bare behind a pointer |
| Dns.DotDangles | 2.3.1-coroutine/async_dns_client_noblock.c:171-190 | a message, header included, for which it is not |
| Dns.NameRoundTrip | 2.3.1-coroutine/async_dns_client_noblock.c:160-194 | decoding an encoded host name anywhere in a message restores it, less one dot at its end |

## Left out

- Memory: `malloc` failure, the allocator hooks and freeing are not modelled; no allocation fails.
- LinkedKcp.ControlBlock.Flush: takes the numbers (estimator, congestion, probe, clock) and the packing of segments into datagrams from the value model; the statements that compute them and the writes into the buffer are in `KcpObject`.
- Null arguments: `ikcp_send` and `ikcp_recv` with a null buffer, and `ikcp_input` with null data.
- Logging, `ikcp_qprint`, the `user` pointer and what the output callback does: output is a sequence of datagrams.
- Outcomes.InputReleases: for datagrams whose `una`s are at most 0x7fff0000 behind `snd_una`; further back the early exit of the loop may keep a segment below `una`, for which `SendWindow.DropIsFilterIff` has the exact condition.
- Outcomes.InputCong: for `mtu` up to 65535 and counters as runs have them (`Endpoint.Counters`); beyond, the 32-bit products of the source wrap around.
- Build variants: `IKCP_FASTACK_CONSERVE` and big-endian `memcpy`; the model is the default build on a little-endian machine.
- Signed overflow in the estimator is modelled as wrap-around, which `Rtt.SampleExact` shows not to happen below 2^28; `long` is read as 32 bits wide in `_itimediff`, which casts to a signed 32-bit value first.
- Sizes: buffer and queue lengths are unbounded integers, so the truncation of a `long` size to `int`, the sum of lengths in `ikcp_peeksize` beyond 2^31 and a length of -2^31 in `ikcp_recv` are not modelled.
- Changes of `mtu` or the windows in mid-run: the setters are modelled, the results over runs are for a fixed configuration.
- The lifetime assumption is not derived: it is a condition on every delivery step, because only the network's delays can guarantee it.
- KcpObject.Kcp.Flush: split into methods that follow the parts of the function, and the fields that one concern reads and writes together (`rx_srtt`, `rx_rttval`, `rx_rto`, say) are one record-valued field each; queues and the acknowledgement list are sequence-valued fields here, pointer structures in `LinkedKcp` and an array in `AckArray`.
- Queue.List.Link: the queue counters are unbounded here and 32 bits wide in the source; their wrap-around after 2^32 queued nodes is not modelled.
- AckArray.AckList.Push: requires fewer than 2^31 entries, beyond which the doubling loop of the source would wrap and never end.
- Dns.NameRoundTrip: for host names below 2^31 bytes, because the encoder keeps a label's length in an `int`.
- Dns.ParseName: requires a message on which the decoder comes to an end and room in the output; the source checks neither, and on other input it reads or writes outside its arrays or never returns.
- `dns_create_question`, response walking and sockets: the first leaves bytes of its buffer uninitialised when labels are empty, the rest is input and output.
- `ikcp_waitsnd`, `ikcp_getconv`, `ikcp_interval`: one-line accessors.
- Liveness: that fair rounds keep happening, and so every message eventually arrives, needs assumptions on the network and on the application's clock that the repository does not state; `Progress` proves what any number of fair rounds achieves.
- Wrappers, sessions, chat programs, the second copy of the engine, servers, thread pool and the other examples of the repository.
