# Verified models of the KCP engine, the HTTP parser and three smaller cores

Dafny models of five parts of the repository, with proofs of what those parts are for.

- **KCP** (`udp/ikcp.c`). Every entry point is a function on control-block values
  (`KcpSender`, `KcpReceiver`, `KcpFragment`, `KcpWire`, `KcpCongestion`, `KcpEngine`), taken
  in the 32-bit arithmetic of the code or with unbounded sequence numbers.
  `KcpControlBlock.ControlBlock` is the control block as an object whose methods follow the
  C functions and are proved against those functions. `KcpSession` runs two endpoints over
  a network that may hand over any datagram ever emitted, any number of times, at any time,
  or never; `KcpNetwork` does the same with bytes; `KcpWrap` and `KcpLongRuns` show that
  32-bit endpoints follow unbounded ones. `KcpFlush` and `KcpInput` tell what a flush emits
  and what a datagram does from timers, counters and units alone; `KcpRuns`, `KcpGrowth` and
  `KcpTimers` are about congestion control and timers.
- **HTTP parser** (`http/http_parser.cpp`). `HttpMachine` is the parser one byte at a time,
  from the start of a header section to the end of the message. `HttpParser.HttpParser` is
  the loop of `http_parser_execute` with its marks, fast paths and bulk reads, proved to do
  what the machine does; `HttpBody`, `HttpHeaders`, `HttpSplit` and `HttpDelivery` prove
  framing, round trips and independence of how the input is cut, over the characters and
  number systems of `HttpChars`; `HttpRefusals` is about malformed input. Two sequences of callbacks
  count as the same when they differ only in the pieces in which data is reported
  (`HttpEvents.Joined`).
- **Route lookup** (`http/trie.cc`): `RouteTree`, `RouteInsert`, `RouteTrie`; `RoutePatterns`
  and `RouteTexts` tell routes and paths as they are written.
- **Load balancing** (`load_balance.h`): `LoadBalance`.
- **Intrusive list** (`utils/list.h`): `IntrusiveList`, on linked nodes in the heap.

`dafny verify dfyconfig.toml` checks everything.

What the proofs assume of KCP's callers: mtu, mss and window sizes are fixed once data flows,
and over a run of two endpoints so are `nodelay`, `interval`, `minrto`, `fastresend` and
`nocwnd`, each at any value `ikcp_nodelay` accepts; the receive window is at least 128, as `ikcp_wndsize` enforces, and below 2^31; message
boundaries are claimed for message mode. `InOrderWithoutStaleness` and
`EndToEndWithoutStaleness` also take windows of at most 2^31 - 2^16.

Where the code and its comments disagree the models follow the code:

- a stream-mode `ikcp_send` that returns -2 may already have extended the last segment;
- `unhex` lists 128 of 256 entries, so bytes from 0x80 on read as digit 0;
- the space check in front of the colon of a header name cannot succeed, as no token is a
  space;
- a CR inside a header value that no LF follows drops the byte behind it and silences the
  value until the end of the buffer;
- a content length is refused from 9223372036854775800 on, eight short of the limit named;
- spaces between the digits of a content length are skipped, so `1 2` is read as 12;
- behind a backslash in a quoted header value any byte is taken, a line end too;
- `fallback_lookup` is called once even when there is nothing to fall back to, and its
  uninitialised `matched.node` is read as null;
- `fallback_lookup` copies its result before the node is known (`http/trie.cc:41` and 87-96),
  so a fallback that succeeds ends the lookup without error and without a node
  (`http/trie.cc:203-205`): only paths that need no fallback are ever matched, and a new
  route can unmatch a path (`RouteTrie.FallbackLosesNode`);
- a lookup that reaches its limit and is then retried with success can return a node
  together with the error flag.

## Model

| member | source | states |
|---|---|---|
| `KcpNetwork.EndToEndDelivery` | udp/ikcp.c:358-537 | In every byte-level history of two message-mode endpoints over a network that loses, duplicates and reorders datagrams, with fewer than 2^31 segments, each application has read a prefix of the messages the other side accepted: in order, once, bytes and boundaries intact |
| `KcpLongRuns.EndToEndWithoutStaleness` | udp/ikcp.c:136-139 | The same for any number of segments, across wraparounds, as long as no datagram is handed over whose numbers lie 2^31 or more behind |
| `KcpNetwork.Simulates` | udp/ikcp.c:749-900 | Every byte-level history is a run of the two-endpoint system on decoded units: what one side encodes the other decodes to the same units |
| `KcpNetwork.DatagramsWellFormed` | udp/ikcp.c:950-1114 | Every datagram either endpoint ever outputs is non-empty, at most mtu bytes, decodes without error at the peer, and re-encodes to the same bytes |
| `KcpNetwork.EndToEndInvariant` | udp/ikcp.c:560-743 | In every byte-level history, at both endpoints, the send buffer and the receive queues are well formed, no numbered segment is lost, and a full receive queue can be read |
| `KcpSession.InOrderExactlyOnce` | udp/ikcp.c:358-537 | The delivery property on decoded units, in either arithmetic |
| `KcpSession.Invariant` | udp/ikcp.c:683-743 | The two-endpoint invariant holds after every list of calls: sender and receiver hold exactly the fragments their numbers name, acknowledgements in flight are truthful, what is neither buffered nor received does not exist |
| `KcpSession.NoSegmentDropped` | udp/ikcp.c:571-607 | Every number below snd_nxt is still in snd_buf with its content or has been received by the peer |
| `KcpSession.NothingWaitingMeansAllReceived` | udp/ikcp.c:1285-1288 | When nothing waits in an endpoint's queues its peer has received every segment of every message it accepted, in both directions |
| `KcpSession.NeverStuckFull` | udp/ikcp.c:441-463 | In every run a receive queue that has reached rcv_wnd starts with a complete message, so the application can make room |
| `KcpSession.FullQueueReadable` | udp/ikcp.c:721-732 | The same from the invariant alone: a full queue has a non-negative peek size |
| `KcpSession.DeliversNext` | udp/ikcp.c:358-435 | A receive returns exactly the next message when all of it has arrived in order and it fits the caller's buffer, -1 when nothing has arrived in order, -2 when part of the message has, -3 when it does not fit |
| `KcpSession.StepKeeps` | udp/ikcp.c:749-900 | Each of send, receive, update, flush and input keeps the invariant in both directions of the link |
| `Serial.DiffExact` | udp/ikcp.c:136-139 | The wrapped comparison of two numbers less than 2^31 apart is their true difference |
| `Serial.DiffExactOnlyInWindow` | udp/ikcp.c:136-139 | It is so exactly when they lie in that window; beyond it the comparison reports the opposite order |
| `KcpWrap.DoWraps` | udp/ikcp.c:575-690 | One call in 32-bit arithmetic leads from wrapped state to wrapped state when every number it compares is near |
| `KcpWrap.RunWraps` | udp/ikcp.c:575-690 | A run of any length whose comparisons are near goes through the same states, wrapped |
| `KcpWrap.UnstaleIsNear` | udp/ikcp.c:689-690 | In a reachable state the only comparisons that can be far are those of a stale datagram |
| `KcpWrap.InOrderWithoutStaleness` | udp/ikcp.c:136-139 | In-order exactly-once delivery of decoded units at any length without stale datagrams |
| `KcpSender.DropUnaExact` | udp/ikcp.c:593-607 | The early-exit loop of ikcp_parse_una keeps exactly the segments at or above una |
| `KcpSender.DropSnExact` | udp/ikcp.c:571-591 | The early-exit loop of ikcp_parse_ack removes exactly the acknowledged number |
| `KcpSender.ParseUnaKeeps` | udp/ikcp.c:560-607 | The send-buffer invariant survives a cumulative acknowledgement and snd_una does not go back |
| `KcpSender.ParseAckKeeps` | udp/ikcp.c:560-591 | The same for a selective acknowledgement |
| `KcpSender.BumpFastackExact` | udp/ikcp.c:609-631 | Exactly the segments below the newest acknowledged number are counted as skipped |
| `KcpSender.MoveQueueExact` | udp/ikcp.c:1020-1042 | Numbering takes as many queued segments as the queue and the window allow, in order, with consecutive numbers |
| `KcpFlush.FlushEmits` | udp/ikcp.c:931-1114 | A flush emits one acknowledgement for every entry of the ack list, then a question and an answer about the window if they are due, then the data units of exactly the segments that are due, with the room in the receive queue and rcv_nxt in each |
| `KcpFlush.SentExactlyWhenDue` | udp/ikcp.c:1048-1108 | A flush sends a segment of snd_buf exactly when it has never been sent, its timer has expired, or it was skipped as often as fast retransmission asks and the limit allows |
| `KcpFlush.SegmentsAfter` | udp/ikcp.c:1048-1108 | What every segment is afterwards: unchanged if not sent; else one more transmission, and timeout, timer and skip count by the cause - the timeout doubled, or half as much again, after an expiry |
| `KcpFlush.NoTimerLeft` | udp/ikcp.c:1048-1108 | No retransmission timer is expired right after a flush |
| `KcpFlush.CountersAfter` | udp/ikcp.c:1062-1107 | Every expired timer counts as one retransmission, and the link is given up exactly when a segment is sent for the dead_link-th time |
| `KcpFlush.ExpiredIsResent` | udp/ikcp.c:1146-1171 | A segment whose timer has expired is sent by the next ikcp_update that flushes |
| `KcpFlush.NewIsSent` | udp/ikcp.c:1020-1078 | A segment is sent by the flush that numbers it |
| `KcpFlush.ProbeTimerAfter` | udp/ikcp.c:970-990 | The probe timer is off while the peer has a window, 7 s when it is found closed, and half as long again after every question, up to 120 s |
| `KcpFlush.ClosedWindowIsProbed` | udp/ikcp.c:970-1001 | Every flush from 7 s after the one that noticed a closed window asks the peer for it |
| `KcpInput.DeliverAcknowledges` | udp/ikcp.c:749-897 | A datagram takes out of snd_buf exactly the segments its units acknowledge, one by one or cumulatively, and counts exactly those below its newest selective acknowledgement as skipped |
| `KcpInput.DataUnitKept` | udp/ikcp.c:822-847 | A data unit is put on the ack list exactly when it lies below the end of the window, and kept exactly when it is inside the window and new |
| `KcpInput.DataIsAcknowledged` | udp/ikcp.c:822-828 | The next flush acknowledges every data unit that arrived below the end of the window, repeated ones too |
| `KcpInput.QuestionIsAnswered` | udp/ikcp.c:848-851 | A question for the window is answered by the next flush, with the room there is then |
| `KcpInput.ReopeningIsTold` | udp/ikcp.c:378-432 | A receive that makes room in a full queue is announced by the next flush, and no other is |
| `KcpInput.DeliverGrows` | udp/ikcp.c:779-897 | The window of the last unit is taken over, and the congestion window grows exactly when snd_una has moved on |
| `KcpInput.DeliverMeasures` | udp/ikcp.c:792-796 | A datagram feeds the estimator one sample for each acknowledgement not from the future, in order, and nothing else |
| `KcpInput.InputMeans` | udp/ikcp.c:749-790 | Fewer than 24 bytes are ignored or end a datagram; a malformed unit ends the call with its code after the units before it have had their effect |
| `KcpRuns.FlushRespectsWindow` | udp/ikcp.c:1016-1042 | A flush numbers nothing at or beyond snd_una plus the least of snd_wnd, the peer's window and cwnd, and leaves nothing queued that the window would have admitted |
| `KcpReceiver.ParseDataKeeps` | udp/ikcp.c:683-743 | rcv_queue stays consecutive up to rcv_nxt - 1 and rcv_buf strictly sorted inside the window; what is held afterwards is what was held plus the new segment if it is in the window and not known |
| `KcpReceiver.ArrivalOrderIrrelevant` | udp/ikcp.c:683-743 | Two arrival orders, with duplicates, of the same in-window segments lead to the same rcv_nxt, rcv_queue and rcv_buf |
| `KcpFragment.SendMessage` | udp/ikcp.c:469-537 | A message-mode send is accepted exactly for at most 127 fragments; then they are at most mss long, join to the payload, count down to 0 and are as few as possible; a refused one leaves the queue alone |
| `KcpFragment.FragmentCountIsCeiling` | udp/ikcp.c:507-512 | The count is the rounded-up quotient, and at least 1 |
| `KcpFragment.SendStream` | udp/ikcp.c:476-537 | A stream-mode send appends exactly the payload and keeps all segments but the last full; a refused one has already appended what fitted the last segment |
| `KcpFragment.RefusedStreamIsClean` | udp/ikcp.c:476-512 | A refused stream-mode send leaves the queued bytes alone exactly when the last segment had no room |
| `KcpFragment.RefusedStreamCanExtend` | udp/ikcp.c:476-512 | A concrete refused send that has changed the queue |
| `KcpWire.DecodeEncodeAll` | udp/ikcp.c:769-812 | Decoding the encoding of any units that fit their fields gives them back |
| `KcpWire.EncodeLayout` | udp/ikcp.c:904-917 | The bytes of a unit: where each field lies, the lowest byte first |
| `KcpWire.DecodeMeans` | udp/ikcp.c:761-786 | What decoding makes of any 24 bytes and more: the unit its bytes spell, or -1 for another conversation, -2 for missing data, -3 for an unknown command |
| `KcpWire.PackExact` | udp/ikcp.c:956-1114 | Packing keeps the units in order; every datagram is non-empty, at most mtu, and could not have taken the next unit |
| `KcpWire.PackedUnitsDecode` | udp/ikcp.c:956-1114 | The peer's decoder, run over the datagrams of a flush, gives exactly the units in order |
| `KcpCongestion.EstimatorBounded` | udp/ikcp.c:543-558 | For samples in [0, M] with 8 M < 2^31 the estimates stay in [0, M], nothing overflows and the timeout stays between the minimum and 60000 |
| `KcpCongestion.EstimatorStep` | udp/ikcp.c:543-558 | One sample: the smoothed round trip takes an eighth of it and the variation a quarter of its distance, each rounded down; the first sample is taken over; the timeout is their sum, clamped |
| `KcpCongestion.EstimatorConverges` | udp/ikcp.c:543-558 | Samples of one size bring the smoothed round trip to within 8 of it, in as many steps as it was away, and keep it there |
| `KcpCongestion.EstimatorOverflows` | udp/ikcp.c:543-558 | For every larger M two samples of M overflow |
| `KcpRuns.RtoOverRuns` | udp/ikcp.c:543-558 | In every run the timeout lies between its minimum and 60000 |
| `KcpCongestion.GrowKeeps` | udp/ikcp.c:875-897 | Growth keeps the congestion record sound, never shrinks cwnd and never takes it above the peer's window |
| `KcpCongestion.GrowMeans` | udp/ikcp.c:875-897 | What growth is: nothing at the peer's window, one segment below the threshold, else incr rises by mss * mss / incr + mss / 16 and cwnd follows it in whole segments up to the peer's window |
| `KcpCongestion.GrowthTracksIff` | udp/ikcp.c:875-897 | Growth takes every sound record to one with |incr - cwnd * mss| < mss exactly for segments of at most 2^16 bytes |
| `KcpCongestion.GrowFails` | udp/ikcp.c:880-897 | For each larger mss a record that growth throws out of step |
| `KcpGrowth.InputsKeepStepIff` | udp/ikcp.c:875-897 | In every run every datagram keeps incr in step with cwnd and never shrinks cwnd, exactly for segments of at most 2^16 bytes: from 2^16 + 1 on there is a run against some peer that breaks one of the two |
| `KcpGrowth.LosesStep` | udp/ikcp.c:875-897 | That run: one acknowledged segment after another until growth wraps |
| `KcpGrowth.GrowthAdvances` | udp/ikcp.c:879-890 | As long as step is kept incr grows by at least 2^12 with every acknowledgement |
| `KcpCongestion.AdjustKeeps` | udp/ikcp.c:1116-1137 | After a flush cwnd is at least 1, ssthresh at least 2 and the record sound |
| `KcpFlush.WindowAfter` | udp/ikcp.c:1116-1137 | After a flush in which a timer had expired cwnd is 1 and ssthresh half the window, at least 2; after a fast retransmission half of what is in flight and as many more as were skipped; else they are unchanged |
| `KcpCongestion.FastResendTracksIff` | udp/ikcp.c:1117-1124 | After a fast retransmission incr tracks cwnd exactly when their product fits 32 bits |
| `KcpRuns.CongestionOverRuns` | udp/ikcp.c:875-1137 | In every run, at each endpoint whose sizes fit, |incr - cwnd * mss| < mss, ssthresh is at least 2 and no field leaves 32 bits |
| `KcpRuns.InputCc` | udp/ikcp.c:875-897 | A datagram never takes cwnd above both its old value and the peer's window |
| `KcpRuns.FlushCc` | udp/ikcp.c:1116-1137 | A full flush leaves cwnd at least 1 |
| `KcpTimers.CheckIsNear` | udp/ikcp.c:1183-1219 | The time ikcp_check returns lies between the present and one interval later |
| `KcpTimers.NothingDueBefore` | udp/ikcp.c:1183-1219 | Before that time neither the flush timer nor any retransmission timer is due |
| `KcpTimers.UpdatingEarlierDoesNothing` | udp/ikcp.c:1146-1219 | An ikcp_update before that time only records the time |
| `KcpTimers.SomethingDueAt` | udp/ikcp.c:1183-1219 | Unless it is the cap of one interval, something is due at that time |
| `KcpTimers.FlushesWhen` | udp/ikcp.c:1146-1164 | An ikcp_update flushes on the first call, from the scheduled time on, and when that time lies more than 10 s ahead |
| `KcpTimers.KeepsPace` | udp/ikcp.c:1164-1170 | The next flush is one interval after the last one was due, or after the present if that is past |
| `KcpTimers.UpdateSchedules` | udp/ikcp.c:1146-1171 | After every ikcp_update the next flush lies strictly ahead, at most one interval if it flushed |
| `KcpControlBlock.ControlBlock.constructor` | udp/ikcp.c:234-298 | A new control block has the documented defaults |
| `KcpControlBlock.ControlBlock.NoDelay` | udp/ikcp.c:1246-1269 | Exactly the settings that are not negative change, the interval within its bounds |
| `KcpControlBlock.ControlBlock.WndSize` | udp/ikcp.c:1272-1283 | The receive window never falls below 128 |
| `KcpControlBlock.ControlBlock.SetMtu` | udp/ikcp.c:1223-1236 | An mtu of at least 50 replaces mtu, mss and the scratch buffer, a smaller one changes nothing |
| `KcpControlBlock.ControlBlock.UpdateAck` | udp/ikcp.c:543-558 | The method takes the estimator where the specification does; `KcpCongestion.EstimatorStep` says where |
| `KcpControlBlock.ControlBlock.ParseAck` | udp/ikcp.c:571-591 | The in-place loop refines the specification and keeps nsnd_buf equal to the list length |
| `KcpControlBlock.ControlBlock.ParseUna` | udp/ikcp.c:593-607 | The same for the cumulative acknowledgement |
| `KcpControlBlock.ControlBlock.ParseFastack` | udp/ikcp.c:609-631 | The same for the skip counters |
| `KcpControlBlock.ControlBlock.ParseData` | udp/ikcp.c:683-743 | Backward search, insertion and the move to rcv_queue refine the specification, counters included |
| `KcpControlBlock.ControlBlock.PeekSize` | udp/ikcp.c:441-463 | The size of the message at the head, or -1 |
| `KcpControlBlock.ControlBlock.Recv` | udp/ikcp.c:358-435 | The merging loop pops whole messages and the result codes, the refill and the window-tell flag are as specified |
| `KcpControlBlock.ControlBlock.Send` | udp/ikcp.c:469-537 | The fragmenting loop refines the specification, a negative length is -1 |
| `KcpControlBlock.ControlBlock.Input` | udp/ikcp.c:749-900 | Decoding, dispatch, error codes and window growth on any bytes leave the state of the specification |
| `KcpControlBlock.ControlBlock.Flush` | udp/ikcp.c:931-1138 | Acknowledgements, probes, numbering, transmission and adjustment, with datagrams built in the scratch buffer, leave the state of the specification and emit the packed encodings of its units; the rows of `KcpFlush` say what these are |
| `KcpControlBlock.ControlBlock.Update` | udp/ikcp.c:1146-1171 | The clock and the flush it decides on |
| `KcpControlBlock.ControlBlock.Check` | udp/ikcp.c:1183-1219 | The loop over the retransmission timers finds the specified time |
| `KcpOutput.Output.Put` | udp/ikcp.c:906-1103 | Encoding a unit behind the write pointer, after an output if it does not fit; the pointer never passes mtu |
| `HttpParser.HttpParser.Execute` | http/http_parser.cpp:607-2168 | From inside a message, http_parser_execute on any buffer, with its marks, fast paths and bulk reads, has the end, the state, the error and - joined - the callbacks of the byte-at-a-time machine; where message_complete pauses the parser it returns right behind the message with HPE_PAUSED, else it says where the message ends if bytes are left; and what a call without bytes does |
| `HttpParser.HttpParser.RecvAndParse` | http/request.cpp:19-46 | Calling it for one non-empty buffer after another has the outcome and callbacks of the successive machine runs, with or without a pause at the end of the message |
| `HttpDelivery.ReceiveLengthMessage` | http/http_parser.cpp:1462-1997 | A parser fed any header lines, a body of the stated length and anything behind it, in any non-empty buffers, reports the header fields, exactly the body and one message_complete, and stops or goes on exactly behind the body |
| `HttpDelivery.ReceiveChunkedMessage` | http/http_parser.cpp:1462-2112 | The same for any list of non-empty chunks with sizes in any digits, extensions and trailer fields |
| `HttpDelivery.LengthMessageInPieces` | http/http_parser.cpp:1947-1997 | With bytes of a next message behind it, the first one ends at the offset behind its body, however the input is cut |
| `HttpDelivery.ChunkedMessageInPieces` | http/http_parser.cpp:1999-2112 | The same for a chunked message: its events and the offset of its end, whatever follows and however the input is cut |
| `HttpBody.DecodeEncode` | http/http_parser.cpp:1999-2112 | Reading any encoded list of chunks gives their callbacks and leaves what follows to the trailer section (section 4.1 of RFC 7230) |
| `HttpBody.DigitsRun` | http/http_parser.cpp:2014-2043 | A chunk size of any number of hexadecimal digits is read as the number they write in base 16, or refused exactly from 2^63 on |
| `HttpChars.HexReadsWritten` | http/http_parser.cpp:220-229 | Reading undoes writing in base 16, for every number, number of digits and choice of upper and lower case |
| `HttpChars.HexWritesRead` | http/http_parser.cpp:220-229 | And writing undoes reading: hexadecimal digits are the number they read as, written in as many digits and their cases |
| `HttpChars.DecimalReadsWritten` | http/http_parser.cpp:1774-1782 | The same in base 10, for content lengths |
| `HttpMachine.Token` | http/http_parser.cpp:184-217 | The table of token characters: the characters of section 3.2.6 of RFC 7230 by their codes, in lower case, and 0 for every other byte |
| `HttpMachine.Unhex` | http/http_parser.cpp:220-229 | The table of hexadecimal digits: their values by ASCII ranges, -1 for other bytes below 0x80 |
| `HttpBody.IdentityBody` | http/http_parser.cpp:1947-1997 | Exactly content_length bytes are the body and the message ends with the last |
| `HttpBody.ChunkEventsPayload` | http/http_parser.cpp:2076-2103 | The body callbacks of a chunked body join to the payload |
| `HttpHeaders.NameRecognised` | http/http_parser.cpp:1508-1590 | A header is content-length, transfer-encoding or upgrade exactly when its name spells that, whatever the case of its letters |
| `HttpHeaders.LengthRun` | http/http_parser.cpp:1766-1782 | A content length is read exactly, or refused exactly when it exceeds 9223372036854775799 |
| `HttpHeaders.LineRun` | http/http_parser.cpp:1462-1843 | A header line, with quoted values, continuation lines and upgrade headers among them, reports its name and its value - each fold as one space - and does what it says |
| `HttpHeaders.SectionRun` | http/http_parser.cpp:1846-1944 | Any header section leads to the framing its coding, its last content length and an upgrade header ask for, under every start line and every answer of headers_complete |
| `HttpHeaders.LengthMessage` | http/http_parser.cpp:1947-1997 | A whole message with a content length in one buffer; it ends as an upgrade exactly when an upgrade header is among its lines |
| `HttpHeaders.ChunkedMessage` | http/http_parser.cpp:1999-2112 | A whole chunked message with trailer fields in one buffer, ending likewise |
| `HttpRefusals.BadNameByte` | http/http_parser.cpp:1475-1606 | A byte that is no token character and not the colon behind a name is refused there, after the name has been reported |
| `HttpRefusals.BadValueByte` | http/http_parser.cpp:1700-1707 | A control byte is refused in the value of any header that is not watched, quoted or not, at its offset |
| `HttpRefusals.EmptyValueRefused` | http/http_parser.cpp:1624-1634 | Content-length, transfer-encoding and upgrade without a value are refused, each with its error |
| `HttpRefusals.BadLengthByte` | http/http_parser.cpp:1668-1772 | A content length that begins with no digit, or holds anything but digits and spaces, is refused at that byte |
| `HttpRefusals.SpacedLength` | http/http_parser.cpp:1766-1781 | Spaces between the digits of a content length are skipped like those behind them |
| `HttpRefusals.CodingRead` | http/http_parser.cpp:1655-1799 | A transfer coding makes the body chunked exactly when it is "chunked" in any case, with or without spaces behind it |
| `HttpRefusals.BadSizeByte` | http/http_parser.cpp:2014-2033 | A byte behind the digits of a chunk size that is no digit, space, semicolon or CR is refused at its offset |
| `HttpRefusals.HugeSizeRefused` | http/http_parser.cpp:2035-2039 | A chunk size of 2^63 or more is refused, however many digits it has |
| `HttpRefusals.BareCrRefused` | http/http_parser.cpp:1846-1854 | A CR in front of the body that no LF follows is refused |
| `HttpRefusals.LfEndsValue` | http/http_parser.cpp:1684-1701 | LF alone ends a header line like CR and LF |
| `HttpRefusals.LfEndsSection` | http/http_parser.cpp:1462-1474 | LF alone ends a section like CR and LF |
| `HttpRefusals.EmptyValue` | http/http_parser.cpp:1611-1650 | An empty value may be continued on the next line behind CR and LF but not behind LF alone |
| `HttpRefusals.BareCrInValue` | http/http_parser.cpp:1808-1826 | A CR in a value that no LF follows is reported, with the byte behind it, as one space, and the rest of the line not at all |
| `HttpRefusals.EofBody` | http/http_parser.cpp:1982-1986 | A body without a length is every byte that comes |
| `HttpSplit.AnyChopping` | http/http_parser.cpp:655-690 | When no value is silenced, successive calls on any non-empty buffers do exactly what one call on their concatenation does |
| `HttpSplit.CutShowsExactly` | http/http_parser.cpp:1808-1826 | For a cut anywhere the two calls end alike, and their callbacks differ exactly when the cut falls behind a bare CR in a value and the next byte belongs to that value |
| `HttpSplit.CutCanShow` | http/http_parser.cpp:1808-1826 | A concrete cut that shows |
| `HttpSplit.NoBareCrNeverMutes` | http/http_parser.cpp:1808-1826 | Input without bare CR silences no value |
| `HttpSafety.RunSound` | http/http_parser.cpp:1508-2112 | Whatever the input, chunk states have F_CHUNKED set, body states a positive content_length, s_header_field a header state it knows, and content_length stays in 64 bits |
| `HttpMachine.RunConcat` | http/http_parser.cpp:689-692 | The machine does not notice where its input is cut |
| `HttpMachine.TurnOf` | http/http_parser.cpp:691-692 | Looking at a byte again strictly lowers a rank, so a byte is looked at a bounded number of times |
| `HttpParser.HttpParser.SkipTokens` | http/http_parser.cpp:1516-1540 | The unrolled fast path over a name stays inside the buffer and passes only token bytes |
| `HttpParser.HttpParser.SkipPlain` | http/http_parser.cpp:1715-1746 | The unrolled fast path over a value stays inside the buffer and passes only plain bytes |
| `HttpParser.GeneralValueWent` | http/http_parser.cpp:1708-1748 | The fast path over a value does what the slow path does |
| `HttpParser.HttpParser.Leftover` | http/http_parser.cpp:2137-2157 | At most one mark is left when the buffer runs out, and its callback reports exactly what is pending |
| `RouteTree.SearchComplete` | http/trie.cc:146-211 | The search the loops carry out finds a node exactly when some choice of exact and colon children leads to an endpoint; what the lookup then returns is another matter |
| `RouteTree.SearchFollows` | http/trie.cc:79-120 | What the search finds is reached by the first such choice, exact children preferred from the first segment on |
| `RouteTree.DirectIff` | http/trie.cc:157-189 | The search needs no fallback exactly when the plain descent - exact child if there is one, else colon child - ends at an endpoint |
| `RouteTrie.Trie.MatchSegments` | http/trie.cc:146-226 | The iterative lookup with its stack of fallbacks: the node of the plain descent, an error when more fallback calls than allowed are needed, and no node when a fallback succeeds |
| `RouteTrie.Trie.Descend` | http/trie.cc:155-180 | One descent leaves on the stack exactly what remains to be tried |
| `RouteTrie.Trie.FallbackLookup` | http/trie.cc:38-97 | One fallback takes one entry off and leaves what remains; its result says whether a node was found but never holds one |
| `RouteTrie.LookupMeans` | http/trie.cc:190-226 | One try finds a node exactly when the plain descent does, differs from the search exactly when an endpoint is reachable but not by that descent, and is an error exactly when no descent succeeds and the fallback calls exceed the limit |
| `RouteTrie.Trie.Match` | http/trie.cc:123-144 | The retry without the last slash included |
| `RouteTrie.RouteMeans` | http/trie.cc:123-144 | The node is that of the plain descent along the path or, if there is none, along the path without its last slash; and exactly when the error flag is set |
| `RouteTrie.FallbackLosesNode` | http/trie.cc:38-97 | With routes /:x/c and then /a/b the path /a/c is matched before the second is added and not after, though the search finds its node |
| `RouteTrie.MatchCanBeFlagged` | http/trie.cc:139-143 | A concrete lookup that finds a node and leaves the error flag set |
| `RouteTrie.Trie.AddNode` | http/trie.cc:5-22 | Insertion refines its specification and keeps every node there was, also when it fails |
| `RouteInsert.InsertKeeps` | http/trie.cc:253-275 | Insertion keeps the tree well formed and every node in it |
| `RouteInsert.RouteReachable` | http/trie.cc:253-351 | Every path whose segments fit a registered route can reach its node |
| `RouteInsert.StaticRouteWins` | http/trie.cc:79-120 | A route without colon segments is found by its own path, by the search and by the plain descent, whatever else is registered |
| `RouteInsert.InsertLocal` | http/trie.cc:253-351 | Insertion changes no node outside the subtree it works in |
| `RouteInsert.DirectAfter` | http/trie.cc:253-351 | Where the descent along any path ends after any insertion, successful or refused part-way, told from the tree before |
| `RouteInsert.MatchedStaysMatched` | http/trie.cc:253-351 | A path the descent matches is still matched after adding a route exactly when the route does not divert it: makes an exact child beside the colon child it takes without fitting the rest of it |
| `RouteTrie.LookupStaysMatched` | http/trie.cc:146-351 | The same for the lookup, whatever the limit |
| `RouteTrie.RegisteredRouteMatches` | http/trie.cc:146-351 | What a path that fits a new route is answered with: the node of the route, or what the descent finds where an exact child stands beside one of its colon segments |
| `RouteTrie.StaticRouteMatches` | http/trie.cc:123-226 | A static route is matched by its own path at once, for every limit |
| `RoutePatterns.PatternRead` | http/trie.cc:292-316 | `:name(regex)` is read as its name and its pattern for every name without a parenthesis; refused with an empty pattern or a name that is no segment |
| `RoutePatterns.NameRead` | http/trie.cc:292-316 | Any other `:name` is read as a name without pattern; refused if empty or no segment |
| `RoutePatterns.EveryFragment` | http/trie.cc:292-348 | Every part of a route is a text, `:name` or `:name(regex)` |
| `RouteTexts.RouteAlone` | http/trie.cc:5-226 | A server's only route, given as text, is accepted exactly when its parts are allowed, and then a path is matched exactly when it has as many segments and each is the text, anything, or what the pattern matches - at every limit |
| `RouteTexts.PatternDecides` | http/trie.cc:24-35 | With only the route "/:name(regex)" a path "/s" is matched exactly when the pattern matches s; with "/:name" always |
| `RouteTexts.RouteAccepted` | http/trie.cc:253-351 | In any tree a route is accepted exactly when the part of it that is there agrees in names and patterns and the rest is allowed |
| `RouteTexts.ColonConflict` | http/trie.cc:233-332 | A second colon part at the same place is accepted exactly when it is the same one, and then it leads to the same node |
| `RouteTexts.SpacesIgnored` | utils/util.h:94-96 | White space anywhere in a route makes no difference |
| `RouteTexts.DoubleSlashRefused` | http/trie.cc:5-10 | A route with two slashes in a row is refused and the tree left alone |
| `RouteTexts.PatternParts` | http/trie.cc:12-16 | A route is inserted as the parts between its slashes, the leading one or not |
| `RouteTrie.StringSplit` | utils/util.h:64-76 | The splitting loop computes the pieces between the delimiters |
| `RouteTrie.SplitJoin` | utils/util.h:64-76 | Splitting a joined path gives its segments back |
| `LoadBalance.ConsistentHashBalance.InitializeCircle` | load_balance.h:68-81 | The nested loops make the ring of the servers: every point one of them owns, with the last of its owners |
| `LoadBalance.RingPoints` | load_balance.h:68-81 | A point is in that ring exactly when it is one of the four hash values of one of the first `factor` keys of a server, and it belongs to the last server of the list that has it |
| `LoadBalance.RingUnique` | load_balance.h:68-81 | There is one such ring |
| `LoadBalance.ConsistentHashBalance.GetNext` | load_balance.h:42-59 | The server of the first point at or behind the seed, or else of the smallest point, in the ring of the servers |
| `LoadBalance.ServesUnique` | load_balance.h:42-59 | No two points serve a seed |
| `LoadBalance.RemovalMovesOnlyItsSeeds` | load_balance.h:42-81 | Removing a server never moves a seed of another one, for any hash function, collisions included |
| `LoadBalance.BinarySearch` | load_balance.h:137-148 | A prefix sum not below x behind one below it; the first not below x when the sums are sorted |
| `LoadBalance.WeightedNext` | load_balance.h:115-133 | The drawn number selects a server in whose weight interval it lies, negative weights elsewhere included |
| `LoadBalance.SelectsOne` | load_balance.h:115-148 | Without negative weights there is only one such server |
| `LoadBalance.ChosenByWeight` | load_balance.h:115-148 | Of the numbers that can be drawn exactly `weight` select a server |
| `IntrusiveList.Node.RemoveFromList` | utils/list.h:19-29 | The node is alone afterwards and the others are a ring in their order |
| `IntrusiveList.Node.InsertBetween` | utils/list.h:75-82 | A node that is alone joins the ring, any other, one of the same ring too, is ignored |
| `IntrusiveList.Node.InsertAfter` | utils/list.h:38-41 | It joins behind this node |
| `IntrusiveList.Node.InsertListBetween` | utils/list.h:83-91 | Two rings become one, in order |
| `IntrusiveList.Node.InsertListAfter` | utils/list.h:50-53 | The second ring comes in behind this node |
| `IntrusiveList.Node.Split` | utils/list.h:58-71 | One ring becomes two, from this node and from the given one |
| `IntrusiveList.List.PushBack` | utils/list.h:226-233 | The contents grow by the node at the end; what happens to a node that is not alone |
| `IntrusiveList.List.PushBackList` | utils/list.h:234-242 | The contents are those of both lists, and the other list is empty |
| `IntrusiveList.List.PushFront` | utils/list.h:243-249 | The contents grow by the node in front; a node of the list itself becomes its first, any other that is not alone replaces the list by its own ring |
| `IntrusiveList.List.PopFront` | utils/list.h:259-267 | The first node leaves the list and is alone |
| `IntrusiveList.List.PopBack` | utils/list.h:268-280 | The last node leaves the list and is alone |
| `IntrusiveList.List.Erase` | utils/list.h:281-287 | The node leaves the list; the one behind it is returned |
| `IntrusiveList.List.SplitFrontInclusive` | utils/list.h:317-330 | The list is cut behind the node |
| `IntrusiveList.List.SplitFrontExclusive` | utils/list.h:331-345 | The list is cut in front of the node |
| `IntrusiveList.List.SplitByPredicate` | utils/list.h:346-360 | The longest front that satisfies the predicate is split off |

## Left out

- KCP logging, allocator hooks, allocation failure and `ikcp_release`.
- `ikcp_setmtu` with longer segments waiting than it allows, settings that change and windows that shrink during a run, and `ikcp_interval`, which clamps as `ikcp_nodelay` does.
- KcpFlush.SegmentsAfter: timeouts below 2^30, so that a back-off stays in 32 bits; `KcpRuns.RtoOverRuns` keeps the estimate below 60001, but the back-off of a segment that is never acknowledged has no bound in the code.
- KcpCongestion.GrowMeans: segments below 2^16 bytes; `GrowthTracksIff` says what happens to larger ones.
- KcpCongestion.EstimatorStep: round trips below 2^28 ms; `EstimatorOverflows` says what happens beyond.
- KcpInput.DataUnitKept: in wrapping arithmetic a number 2^31 or more below the end of the window compares as above it and is not acknowledged (`BelowEnd`).
- Liveness of KCP: eventual delivery needs fairness of network and timers that the code does not state.
- KCP's linked queues and the doubling array of `acklist` are sequences that the methods reassign; ring operations on nodes in the heap are proved for `utils/list.h` only.
- The copies of `ts`, `wnd` and `una` in a queued segment, which are rewritten before every encoding and read nowhere else.
- KcpControlBlock.ControlBlock.UpdateAck: signed overflow, undefined in C, has its two's-complement value; `EstimatorBounded` says when there is none.
- KcpControlBlock.ControlBlock.Recv: lengths of reassembled messages are unbounded integers.
- KcpGrowth.InputsKeepStepIff: up to 2^16 bytes it takes for granted that the product of a fast retransmission fits 32 bits; `FastResendTracksIff` says what happens otherwise.
- Stream mode end to end: the two-endpoint theorems are for message mode; streaming is covered at the sending side.
- The request line, the status line and everything else in front of a header section, including the URL parser. A message is followed from behind its start line.
- HttpParser.HttpParser.Execute: a parser that is not paused at the end of a message goes on with bytes left there (`MessageEnds`) as the next message in the same call; what that call then returns is not modelled, nor is a call that begins between messages, except without bytes. Both users in the repository pause it there (`http/request.h:77`, `http/coin_client.h:112`).
- The 80 KB limit on header sections, callbacks that fail, pauses anywhere but in message_complete, and the value `nread`.
- HttpHeaders.LineRun: lines end in CRLF, with one space behind the colon; codings other than `chunked`, and white space or folds in the values of content-length and transfer-encoding, are not among the lines of the round trips. The byte-at-a-time machine covers all of these, and `HttpRefusals.CodingRead` and `SpacedLength` say what it does with some.
- HttpRefusals.CodingRead: a transfer coding on one line without a double quote in it.
- Parameters and pipeline of a route match; only the matched node and the error flag are modelled.
- Regular expressions in routes are arbitrary predicates; keys are compared as strings without a terminating zero.
- MurmurHash is an arbitrary function; random draws are parameters; the fiber mutex is not modelled.
- LoadBalance.WeightedNext: sums are unbounded integers, where `total` and the prefix sums of the original are C ints that can overflow; the total must be at least 1, as the distribution it is drawn from requires.
- LoadBalance.ChosenByWeight: requires weights that are not negative. `ServerNode::weight` defaults to -1, and with such a weight the choice is not by weight.
- LoadBalance.ConsistentHashBalance.GetNext: requires a ring that is not empty; on an empty one the original dereferences the end of the map.
- IntrusiveList.List.PushBackList: requires a non-empty argument unless the list itself is empty; the original follows a null pointer otherwise.
- `push_front` of a list, which calls a member that does not exist, and `delete_all`.
- Sockets, TLS, fibers, worker pools, DNS, RPC, WebSocket, compression and the other utilities.
