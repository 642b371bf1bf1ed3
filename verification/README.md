# K230 multimedia port: a verified model

Models of four independent parts of the K230 port, and proofs of what they promise.

**Display.** LVGL redraws only changed rows, into one of three buffers. The port remembers for each
buffer which rows are out of date and repairs them from the last presented frame when the buffer is used
again. `FrameSync` is this bookkeeping as a state machine over runs of events, with the answers of the
video output and the GPU free; `FrameTheorems` says exactly which schedules present right frames;
`Display` is the instance with its callbacks and the reconfiguration that replaces all video buffers as
one transaction.

**WebRTC.** `AnnexB`, `Rtp`, `RtpTheorems`, `RtpHeaders` and `RtpCodec` split H.264 and H.265 streams,
fragment the units into RTP packets and put them together again. `ClientHello` and `PeerConnection` reassemble a
fragmented DTLS ClientHello. `Checklist`, `ChecklistTheorems`, `CheckTheorems` and `IceAgent`
form, sort, check, retry and nominate ICE candidate pairs. `Stun`, `StunTheorems`, `StunFields` and
`StunMessages` write, sign, verify and parse STUN messages. `Text`, `IceCandidate` and `RemoteDescription` print candidates and read session descriptions.

**Pixels.** `ImageConvert` has the pixel formats as the scalar code reads and writes them and, instruction
by instruction, as the lanes of the vector code compute them; `Blend` does the same for filling and
blending. `Raster` has the loops over strips, pixels and rows that converter and blender share, with the
strip length chosen freely at each step; `ImageCopy` and `RvvBlend` are the entry points.

**Keys.** `KeyQueue` translates keyboard events and queues them for LVGL.

Where the code changes state step by step there is a class or a method that does so, and its contract
ties the new state to a function of the old one; the theorems are about those functions and about runs.
The state of the media platform, the network, the clock, randomness and memory exhaustion are parameters
or free choices. HMAC and CRC are arbitrary functions of the right result size.
`dafny verify dfyconfig.toml` verifies everything.

Four results differ from what one might expect of the code. A refresh abandoned because the GPU does not
drain can be missing from the next frame exactly if the next refresh is given another buffer
(`FrameTheorems.AbandonedRefresh`). A premultiplied pixel with a channel above its alpha does not survive
being read and written (`ImageConvert.PremultipliedSurvives`). Candidate lines whose foundation contains
"raddr" are refused, and "rport" in it can put a wrong related port into the candidate
(`IceCandidate.MarkedFoundation`). STUN methods from 16 on would not be read back from a created message
type (`StunTheorems.TypeRoundTrip`); none is in use.

## Model

| member | source | states |
|---|---|---|
| FrameSync.FrameRefinement | 3rd-party/lvgl/port/lv_k230_display.c:420-531 | In every run in which the GPU drains, each presented frame equals row for row the single framebuffer that holds all draws since the last reconfiguration, whichever free buffers were offered. |
| FrameTheorems.PresentedFrame | 3rd-party/lvgl/port/lv_k230_display.c:420-531 | A schedule of refreshes presents the single framebuffer whatever is painted if and only if every row of the presented buffer is current: each draw of it since the last reconfiguration reached this buffer, or came to it by a repair. The schedule alone decides, and the answers of the GPU and the video output in it. |
| FrameTheorems.AbandonedRefresh | 3rd-party/lvgl/port/lv_k230_display.c:424-510 | After a refresh that painted some row on screen into an otherwise current buffer and was abandoned because the GPU did not drain, the next presented frame is right whatever is painted if and only if the next refresh is given the same buffer. |
| FrameTheorems.CurrentUntilAbandoned | 3rd-party/lvgl/port/lv_k230_display.c:507-510 | Up to the first abandoned refresh its buffer is current on every row, which is what that needs. |
| FrameTheorems.RowExactly | 3rd-party/lvgl/port/lv_k230_display.c:420-531 | The same law for one row of any buffer at any moment. |
| FrameTheorems.NextBuffer | 3rd-party/lvgl/port/lv_k230_display.c:424-458 | The choice of the next buffer decides it: the rows of the abandoned refresh are in no other buffer. |
| FrameTheorems.UnlostIsCurrent | 3rd-party/lvgl/port/lv_k230_display.c:420-531 | A row no abandoned refresh painted is current in the buffer being drawn and in the one just presented. |
| FrameSync.UnlostRows | 3rd-party/lvgl/port/lv_k230_display.c:420-531 | In every run, a presented frame is the reference on all rows that no abandoned refresh painted. |
| FrameSync.StalenessInvariant | 3rd-party/lvgl/port/lv_k230_display.c:446-531 | In every run, abandoned refreshes included, any row where a buffer differs from the last presented one lies in that buffer's sync interval or in the pending dirty interval; the buffer LVGL draws into is up to date and not the one on screen. |
| FrameSync.RunTracksReference | 3rd-party/lvgl/port/lv_k230_display.c:420-531 | The invariant behind the refinement: on rows no abandoned refresh touched, the last frame is the reference up to the rows painted since, spare buffers differ from it only inside their sync intervals, and the draw buffer is the reference. |
| FrameSync.AbandonedRefreshIsMissing | 3rd-party/lvgl/port/lv_k230_display.c:507-510 | An example: a run of four events whose presented frame lacks an abandoned draw. |
| FrameSync.StartKeepsStale | 3rd-party/lvgl/port/lv_k230_display.c:420-460 | Choosing and repairing a draw buffer keeps the staleness invariant and leaves the draw buffer repaired. |
| FrameSync.DrawKeepsStale | 3rd-party/lvgl/port/lv_k230_display.c:462-531 | Painting an area and flushing it, last or not, presented or not, keeps the staleness invariant. |
| FrameSync.PresentKeepsTrack | 3rd-party/lvgl/port/lv_k230_display.c:507-531 | Presenting a frame keeps the tracking invariant: every other buffer falls behind by exactly the dirty rows. |
| FrameSync.PickInRange | 3rd-party/lvgl/port/lv_k230_display.c:424-444 | The chosen buffer is one of the three and never the one last presented, even when none is free. |
| FrameSync.NothingLost | 3rd-party/lvgl/port/lv_k230_display.c:507-510 | If the GPU always drains, no row is ever lost. |
| FrameSync.PickIsRight | 3rd-party/lvgl/port/lv_k230_display.c:424-444 | The choice, told without the search: if any buffer besides the last presented one is free, the chosen one is free, not the last presented one, and no lower-numbered buffer is both; if none is, it is buffer 0, or 1 when 0 was presented last. |
| FrameTheorems.DrawsIntoReleased | 3rd-party/lvgl/port/lv_k230_display.c:420-460 | Every refresh of every run draws into a released buffer whenever one was offered, the first of them, and never into the one on screen. |
| FrameTheorems.DirtyIsTight | 3rd-party/lvgl/port/lv_k230_display.c:383-401 | The dirty interval is the smallest that covers the rows painted since the last frame: both its ends are such rows. |
| FrameTheorems.SyncIsTight | 3rd-party/lvgl/port/lv_k230_display.c:516-529 | A sync interval is the smallest that covers the rows its buffer has missed. |
| Display.Instance.MarkDirtyRows | 3rd-party/lvgl/port/lv_k230_display.c:383-401 | The area is clipped to the screen and the dirty interval widened to cover it; an area off screen changes nothing. |
| Display.Instance.FindFreeBuffer | 3rd-party/lvgl/port/lv_k230_display.c:422-444 | The first buffer that the video output has released and that is not the last presented one, or, if there is none, the fixed fallback the port blocks on. |
| Display.Instance.PrepareDrawBuffer | 3rd-party/lvgl/port/lv_k230_display.c:420-460 | The new draw buffer is the first released one that is not on screen, if there is one; its stale rows are repaired and its sync interval cleared. |
| Display.Instance.FlushCb | 3rd-party/lvgl/port/lv_k230_display.c:462-533 | Runs the Flush step in place, with its early ends. |
| Display.Instance.RecordPresented | 3rd-party/lvgl/port/lv_k230_display.c:516-529 | Every buffer but the presented one is behind by the dirty rows, merged with what it already missed. |
| Display.Instance.Reconfigure | 3rd-party/lvgl/port/lv_k230_display.c:239-340 | A transaction. On failure the buffers, pool, formats and last frame are as before and every resource acquired on the way is released again; on success the instance holds exactly the replacement, with nothing stale, and everything it held before is released. Success is decided by size, allocation and the video output alone. |
| Display.Instance.BuildReplacement | 3rd-party/lvgl/port/lv_k230_display.c:267-294 | The replacement is filled beside the untouched instance and shares no resource with it; if any allocation fails it holds nothing. |
| Display.Instance.RollBack | 3rd-party/lvgl/port/lv_k230_display.c:298-316 | A refused replacement is released and the old configuration restored; the failure flag says whether that was accepted. |
| Display.Instance.Adopt | 3rd-party/lvgl/port/lv_k230_display.c:317-336 | Old resources are released before the replacement's are taken over, and no buffer, dirty row or last frame survives. |
| Display.Instance.Populate | 3rd-party/lvgl/port/lv_k230_display.c:277-294 | A pool and three buffers, or nothing at all held. |
| Display.Instance.AllocateBuffers | 3rd-party/lvgl/port/lv_k230_display.c:285-294 | Buffers are allocated one by one up to the first failure; what is held is exactly what was acquired. |
| Display.Instance.AllocateSingleBuffer | 3rd-party/lvgl/port/lv_k230_display.c:149-179 | A block, a mapping and a registration, or, when mapping fails, none of them. |
| Display.Instance.BufferDeinit | 3rd-party/lvgl/port/lv_k230_display.c:206-237 | Releases exactly the resources the instance references, each once, and clears the references. |
| Display.Instance.ReleaseSlots | 3rd-party/lvgl/port/lv_k230_display.c:214-225 | The same for the three buffers. |
| Display.Instance.ReleaseSlot | 3rd-party/lvgl/port/lv_k230_display.c:216-224 | The same for one buffer, whichever of its parts it holds. |
| RtpTheorems.AnnexBEndToEnd | 3rd-party/libpeer/src/rtp.c:127-485 | For every start-code separated stream of units, with any numbers of zero bytes between and behind them, encoding and then decoding delivers each unit behind a four-byte start code, in order, if and only if every unit is decodable: its type is in range and, when fragmented, it has at most 10236 bytes and, for H.264, a clear F bit. |
| RtpTheorems.UnitsRoundTrip | 3rd-party/libpeer/src/rtp.c:142-485 | The same for a list of units, by induction over the list. |
| RtpTheorems.UnitRoundTrip | 3rd-party/libpeer/src/rtp.c:57-485 | A decodable unit comes out as it went in and leaves the decoder empty, whatever the decoder held before. |
| RtpTheorems.UndecodableUnit | 3rd-party/libpeer/src/rtp.c:57-485 | A unit delivers at most one buffer, and when nothing was buffered an undecodable one never delivers itself. |
| RtpTheorems.FragmentShape | 3rd-party/libpeer/src/rtp.c:79-243 | A unit over 1288 bytes becomes ceil((n-1)/1286) packets for H.264 or ceil((n-2)/1285) for H.265, at least two; start flag on the first only, end flag and marker on the last only, all others 1300 bytes, sequence numbers consecutive modulo 2^16, payloads concatenating to the unit without its header. |
| RtpTheorems.FuFragments | 3rd-party/libpeer/src/rtp.c:99-123 | The per-packet part of the shape, for every packet. |
| RtpTheorems.FuJoin | 3rd-party/libpeer/src/rtp.c:99-123 | The payloads of the fragments concatenate to the fragmented body. |
| RtpTheorems.DecodeFragmented | 3rd-party/libpeer/src/rtp.c:359-485 | A fragmented unit is delivered whole when it fits the NAL unit buffer and dropped when it does not. |
| RtpTheorems.RebuiltUnit | 3rd-party/libpeer/src/rtp.c:386-388 | The header rebuilt from the fragments is the original exactly when, for H.264, the F bit was clear: the encoder does not carry it. |
| RtpTheorems.H265FuBits | 3rd-party/libpeer/src/rtp.c:207-223 | The H.265 fragment header carries type, layer and temporal id so that the decoder rebuilds them. |
| RtpTheorems.DecoderSafety | 3rd-party/libpeer/src/rtp.c:347-485 | For any packets, lost, reordered or malformed, the buffer never exceeds 10240 bytes, and whatever one more packet delivers is a start code and a single-unit payload, or a start code, rebuilt header and the payloads of one start fragment and all fragments accepted since, closed by an end fragment. |
| RtpTheorems.BufferedBytes | 3rd-party/libpeer/src/rtp.c:347-485 | What the decoder holds after any packets is determined by the last start fragment and the packets since. |
| AnnexB.SplitStream | 3rd-party/libpeer/src/rtp.c:127-169 | Splitting a stream of units without an inner start code and with a non-zero last byte gives back the units. |
| AnnexB.UnitsOfStream | 3rd-party/libpeer/src/rtp.c:142-169 | The same from any position inside the stream, by induction over the units. |
| AnnexB.FindNalu | 3rd-party/libpeer/src/rtp.c:127-140 | The search stops behind the next start code or at the end. |
| AnnexB.TrimmedSize | 3rd-party/libpeer/src/rtp.c:154-155 | Exactly the trailing zero bytes are cut. |
| RtpCodec.RtpEncoder.RtpEncode | 3rd-party/libpeer/src/rtp.c:335-345 | An empty buffer is refused; any other sends the packets of all its units. The first call that finds the base 0 fixes it; every packet of the call has the payload type and the source of the session, the next sequence number, and in bytes 4 to 7 the ticks since the base. |
| RtpCodec.RtpEncoder.EncodeUnits | 3rd-party/libpeer/src/rtp.c:142-169 | The loop over the start codes sends the packets of each unit in order and continues the sequence numbers. |
| RtpCodec.RtpEncoder.EncodeFu | 3rd-party/libpeer/src/rtp.c:79-125 | The fragmentation loop sends the fragments of the unit, built in the one packet buffer. |
| RtpCodec.RtpEncoder.EncodeSingle | 3rd-party/libpeer/src/rtp.c:57-77 | One packet with header, marker and the unit. |
| RtpCodec.RtpEncoder.WriteHeader | 3rd-party/libpeer/src/rtp.c:60-72 | The twelve header bytes in network order, and the sequence number advanced modulo 2^16. |
| RtpHeaders.AllHeaded | 3rd-party/libpeer/src/rtp.c:57-125 | Every packet of a buffer carries version 2, the payload type, consecutive sequence numbers, the same timestamp and the source identifier, each read from its place in the header. |
| RtpHeaders.UnitBytes | 3rd-party/libpeer/src/rtp.c:57-243 | The marker of each packet and the indicator and header bytes of each fragment (section 5.8 of RFC 6184, section 4.4.3 of RFC 7798). |
| RtpHeaders.TicksCount | 3rd-party/libpeer/src/rtp.c:335-345 | While the 64-bit product does not wrap, the timestamp is the number of whole 90 kHz ticks since the base, modulo 2^32. |
| RtpHeaders.TicksGrow | 3rd-party/libpeer/src/rtp.c:335-345 | A later buffer does not carry a smaller timestamp before the 32 bits wrap. |
| RtpCodec.RtpDecoder.AppendNalu | 3rd-party/libpeer/src/rtp.c:347-357 | Bytes are appended, or an overflow empties the buffer. |
| RtpCodec.RtpDecoder.DecodeFragment | 3rd-party/libpeer/src/rtp.c:383-412 | A fragment restarts, extends, completes or drops the unit being gathered. |
| RtpCodec.RtpDecoder.DecodeSingle | 3rd-party/libpeer/src/rtp.c:368-382 | A single-unit packet replaces whatever was being gathered. |
| RtpCodec.RtpDecoder.DecodeH264 | 3rd-party/libpeer/src/rtp.c:359-419 | A packet of an H.264 stream has the effect of what it is classified as. |
| RtpCodec.RtpDecoder.DecodeH265 | 3rd-party/libpeer/src/rtp.c:421-485 | The same for H.265. |
| ClientHello.Reassembly | 3rd-party/libpeer/src/peer_connection.c:82-163 | For any order, overlap or duplication of true fragments of one message among other packets (section 4.2.3 of RFC 6347), the call wants more until the fragments cover the message; the packet that completes it yields the whole record and leaves nothing in progress. |
| ClientHello.WholeRecord | 3rd-party/libpeer/src/peer_connection.c:135-141 | The yielded record is unfragmented: offset 0, length the total, record length 12 more, the original body; given to the routine again it passes through. |
| ClientHello.RunHolds | 3rd-party/libpeer/src/peer_connection.c:82-163 | After any such packets the assembly holds precisely the bytes that some fragment has brought. |
| ClientHello.StepOfRun | 3rd-party/libpeer/src/peer_connection.c:122-163 | One more packet keeps that, or completes the message. |
| ClientHello.MergeOfRun | 3rd-party/libpeer/src/peer_connection.c:148-154 | Merging a fragment covers its range with the message's own bytes, over bytes received before too. |
| ClientHello.NextMessage | 3rd-party/libpeer/src/peer_connection.c:82-163 | The same after any other packets: fragments of messages with another number or another length, finished or abandoned, leave no trace in the record of this one. |
| ClientHello.StartsOver | 3rd-party/libpeer/src/peer_connection.c:122-142 | A fragment of a message that is not in progress is answered as if nothing were. |
| PeerConnection.Reassembler.Reassemble | 3rd-party/libpeer/src/peer_connection.c:82-163 | The routine on the packet buffer, coverage map and counter runs the reassembly step; its return value tells the outcome and a completed record replaces the packet. |
| PeerConnection.Reassembler.Accept | 3rd-party/libpeer/src/peer_connection.c:148-163 | The counter decides completeness exactly as the map would: the received count is the number of set cells. |
| PeerConnection.Reassembler.Fill | 3rd-party/libpeer/src/peer_connection.c:148-154 | The loop counts each byte of the message once, however often it arrives. |
| PeerConnection.Reassembler.Begin | 3rd-party/libpeer/src/peer_connection.c:122-142 | A new assembly with the rewritten headers, or nothing kept when memory is short. |
| PeerConnection.Reassembler.Clear | 3rd-party/libpeer/src/peer_connection.c:72-80 | Nothing is in progress afterwards. |
| PeerConnection.SetCellsBound | 3rd-party/libpeer/src/peer_connection.c:156-158 | As many cells are set as the message is long exactly when every cell is set. |
| ChecklistTheorems.ChecklistInvariant | 3rd-party/libpeer/src/agent.c:1137-1510 | Over any sequence of selections, checks and responses: active pairs are distinct and at most five, every pair in progress is active, frozen pairs are a suffix of the sorted table, no pair exceeds 100 checks, and a succeeded or failed pair never changes state. |
| ChecklistTheorems.SelectInv | 3rd-party/libpeer/src/agent.c:1468-1510 | Selection keeps the invariant. |
| ChecklistTheorems.CheckInv | 3rd-party/libpeer/src/agent.c:1391-1466 | A round of checks with at most one response keeps it, whatever TURN and the clock do. |
| ChecklistTheorems.RespondInv | 3rd-party/libpeer/src/agent.c:1137-1188 | An authenticated response keeps it. |
| ChecklistTheorems.RebuiltInv | 3rd-party/libpeer/src/agent.c:1349-1389 | A rebuilt list starts with it. |
| CheckTheorems.ResponseLaw | 3rd-party/libpeer/src/agent.c:1137-1188 | A response makes exactly the first active pair succeed that is in progress and whose remote candidate has the family, address and port it came from, and nominates it unless the nominated pair has succeeded; if there is no such pair nothing changes. |
| CheckTheorems.NoSuccessWithoutAnswer | 3rd-party/libpeer/src/agent.c:1137-1466 | Over any sequence of selections, checks and responses, a pair that has succeeded since the start was in progress when a response from its own remote address came in. |
| CheckTheorems.StepAnswers | 3rd-party/libpeer/src/agent.c:1137-1510 | The same for one selection, check or response. |
| CheckTheorems.RoundLaw | 3rd-party/libpeer/src/agent.c:1398-1424 | A round of checks, told from the state before it: a pair in progress fails after 100 checks and another 50 ms or when setting up the relay fails at its turn, is checked if it never was or 50 ms ago, and is left alone otherwise; the relay stays set up, and the pair checked last is nominated. |
| CheckTheorems.CheckVerdict | 3rd-party/libpeer/src/agent.c:1426-1466 | A check succeeds if and only if an active pair was in progress before it and one has succeeded after it; the first such pair is then selected and nominated. |
| ChecklistTheorems.FormedList | 3rd-party/libpeer/src/agent.c:1349-1389 | With at most ten candidates on each side the pairs are precisely the possible ones of one address family, each once, all frozen with no checks, and never too many. |
| Checklist.FormedExactly | 3rd-party/libpeer/src/agent.c:1353-1374 | Each possible pair is formed exactly once and nothing else is. |
| Checklist.FormedFits | 3rd-party/libpeer/src/agent.c:1362-1365 | At most ten pairs for each local candidate, so the limit of 100 is never hit. |
| Checklist.PairOrder | 3rd-party/libpeer/src/agent.c:1366-1384 | Where the sums of candidate priorities stay below 2^32, as those of 31 bits do, the stored priorities order pairs by their sum. |
| Checklist.ImpossiblePairs | 3rd-party/libpeer/src/agent.c:29-54 | Which pairs are not tried, spelled out by the types of the two candidates. |
| Checklist.PrivateNetworks | 3rd-party/libpeer/src/agent.c:19-27 | The private networks by octets. |
| ChecklistTheorems.NominationStable | 3rd-party/libpeer/src/agent.c:1137-1188 | Once a connectivity check has returned 0, no sequence of later responses changes the nominated or the selected pair. |
| ChecklistTheorems.CheckingEnds | 3rd-party/libpeer/src/peer_connection.c:445-448 | With no responses and iterations at least 50 ms apart on the 32-bit clock, selection fails and the connection is given up within 101 n + 1 iterations for n pairs. |
| ChecklistTheorems.WorkRunsOut | 3rd-party/libpeer/src/agent.c:1391-1510 | The measure behind it: more iterations than remaining work cannot happen. |
| ChecklistTheorems.RoundWork | 3rd-party/libpeer/src/agent.c:1398-1451 | Each round uses up at least one unit of work for every active pair. |
| ChecklistTheorems.SelectWork | 3rd-party/libpeer/src/agent.c:1468-1510 | Selection uses up no work, and fails only when every pair has failed. |
| IceAgent.Agent.UpdateCandidatePairs | 3rd-party/libpeer/src/agent.c:1349-1389 | Forms and sorts the pairs in place: a permutation of the formed pairs in descending priority. |
| IceAgent.Agent.SortPairs | 3rd-party/libpeer/src/agent.c:1376-1384 | The exchange sort orders the used part by descending stored priority and only permutes it. |
| IceAgent.Agent.SortRound | 3rd-party/libpeer/src/agent.c:1377-1383 | One round of the sort puts the largest of the rest into its place. |
| IceAgent.Agent.FormPairs | 3rd-party/libpeer/src/agent.c:1353-1374 | The two loops build the formed pairs in order; the limit is never reached. |
| IceAgent.Agent.SelectCandidatePair | 3rd-party/libpeer/src/agent.c:1468-1510 | Runs the selection step in place. |
| IceAgent.Agent.RemoveFailed | 3rd-party/libpeer/src/agent.c:1478-1494 | The backward compaction removes exactly the failed pairs and keeps the order of the others; a second pass finds nothing. |
| IceAgent.Agent.FillActive | 3rd-party/libpeer/src/agent.c:1496-1503 | Frozen pairs are activated in order while there is room. |
| IceAgent.Agent.ConnectivityCheck | 3rd-party/libpeer/src/agent.c:1391-1466 | Runs a whole check: sending, one reception and the verdict. |
| IceAgent.Agent.SendChecks | 3rd-party/libpeer/src/agent.c:1398-1451 | The loop over the active pairs, with retries, timeouts and TURN failures. |
| IceAgent.Agent.SendCheck | 3rd-party/libpeer/src/agent.c:1399-1424 | One pair: skipped, failed, sent or left waiting. |
| IceAgent.Agent.ProcessStunResponse | 3rd-party/libpeer/src/agent.c:1142-1172 | Runs the response step in place: the first active pair in progress with that remote address succeeds; a nomination that has succeeded stays. |
| StunTheorems.FinishedMessageAccepted | 3rd-party/libpeer/src/stun.c:344-565 | Any attribute list that fits, finished with a short-term password, is authentic for that password if and only if the list had no integrity or fingerprint attribute of its own, and is parsed if and only if each attribute has an acceptable value. Sections 6, 15.4 and 15.5 of RFC 5389. |
| StunTheorems.SignatureVerifies | 3rd-party/libpeer/src/stun.c:344-565 | The validator recomputes integrity over the same bytes with the same length field as the writer, and likewise the fingerprint. |
| StunTheorems.FinishedWalk | 3rd-party/libpeer/src/stun.c:344-393 | Both readers walk a finished message to its exact end, over the attributes written and then the two of the signature. |
| StunTheorems.FinishedMessage | 3rd-party/libpeer/src/stun.c:344-393 | Finishing appends integrity and fingerprint and sets the length to cover them. |
| Stun.WriteExtends | 3rd-party/libpeer/src/stun.c:298-342 | Writing an attribute that fits turns the message of a list into the message of the list with it at the end; size is 20 plus the header length and a multiple of four. |
| Stun.WalkMessage | 3rd-party/libpeer/src/stun.c:177-280 | A reader that walks a message meets exactly the attributes written, at their offsets. |
| StunTheorems.MappedRoundTrip | 3rd-party/libpeer/src/stun.c:75-139 | An address read from an XOR-ed attribute is the address written, for both families and any mask. |
| StunFields.FieldsRead | 3rd-party/libpeer/src/stun.c:177-280 | After parsing a finished message each field is what the attribute last written under its type gives: user name, realm and nonce cut to 127, 63 and 63 bytes, the error code, the channel, place and length of the data, and the addresses, those in XOR attributes under the cookie and the transaction id of the message; a field that no attribute names is as it was. |
| StunFields.AddressesRead | 3rd-party/libpeer/src/stun.c:75-280 | The mapped, relayed and peer addresses are those last written under the mask of the message; MAPPED-ADDRESS goes without a mask. |
| StunFields.DataFound | 3rd-party/libpeer/src/stun.c:228-231 | The data offset and length mark out the data written last. |
| StunFields.WireFormat | 3rd-party/libpeer/src/stun.c:61-342 | Type, length, cookie and transaction id in network order, and each attribute at its place with type, length, value and zero padding (sections 6 and 15 of RFC 5389). |
| StunFields.SignatureBytes | 3rd-party/libpeer/src/stun.c:344-393 | The last 32 bytes: the keyed hash of what is before it, with a length field that ends with the integrity attribute, and the checksum of what is before the fingerprint. |
| StunFields.MaskedBytes | 3rd-party/libpeer/src/stun.c:75-108 | Each bit of port and address is written as it differs from the bit of the mask at its place. |
| StunTheorems.TypeRoundTrip | 3rd-party/libpeer/src/stun.c:160-176 | Class and method are read back from a message type exactly when the method is below 16. |
| StunMessages.StunMessage.WriteAttr | 3rd-party/libpeer/src/stun.c:298-342 | In place: the attribute is written and the length updated, or -1 and nothing changes, exactly when it does not fit. |
| StunMessages.StunMessage.Finish | 3rd-party/libpeer/src/stun.c:344-393 | In place: the signed message, or -1 when 32 bytes are not left or hashing fails. |
| StunMessages.StunMessage.Create | 3rd-party/libpeer/src/stun.c:61-73 | A header of length 0, or size 0 when there is no randomness. |
| StunMessages.StunMessage.ParseBuf | 3rd-party/libpeer/src/stun.c:141-285 | Accepts exactly the framed messages whose attributes are all acceptable, and takes over their values; what they are is StunFields.FieldsRead. |
| StunMessages.StunMessage.ParseAttributes | 3rd-party/libpeer/src/stun.c:178-282 | The loop over the attributes. |
| StunMessages.StunMessage.IsValid | 3rd-party/libpeer/src/stun.c:464-565 | 0 exactly for authentic messages. |
| StunMessages.StunMessage.FindSignature | 3rd-party/libpeer/src/stun.c:491-539 | The scan finds exactly one integrity attribute and an optional final fingerprint, or refuses. |
| StunMessages.AuthenticBySignature | 3rd-party/libpeer/src/stun.c:541-565 | What the scan found decides authenticity. |
| ImageCopy.DrawBufCopy | 3rd-party/lvgl/port/lv_k230_image_convert.c:1709-1739 | Whichever routine takes a conversion, the destination becomes what the scalar loops make of it, byte for byte, for every format pair, size, stride and sequence of strip lengths; an unsupported conversion changes nothing. RVV is used exactly for the pairs with a vector routine. |
| ImageCopy.CopiedImage | 3rd-party/lvgl/port/lv_k230_image_convert.c:1585-1617 | Where rows do not overlap, each destination pixel is the source pixel read in one format and written in the other, and bytes outside the rows keep their value. |
| ImageCopy.ExpandToRgb | 3rd-party/lvgl/port/lv_k230_image_convert.c:898-1135 | True and the scalar image for the pairs it has lanes for, false and an unchanged destination otherwise. |
| ImageCopy.PackFrom2432 | 3rd-party/lvgl/port/lv_k230_image_convert.c:1137-1305 | The same for packing from 24 and 32 bits. |
| ImageCopy.ConvertPacked | 3rd-party/lvgl/port/lv_k230_image_convert.c:1323-1408 | The same between 24- and 32-bit formats. |
| ImageCopy.ScalarConvert | 3rd-party/lvgl/port/lv_k230_image_convert.c:1585-1617 | The nested loops, their result, and when they give up. |
| ImageConvert.PixelAgrees | 3rd-party/lvgl/port/lv_k230_image_convert.c:938-1583 | A vector lane and the scalar code make the same bytes of a pixel, for every pair a vector routine takes except premultiplied to premultiplied. |
| ImageConvert.PremultipliedDiffers | 3rd-party/lvgl/port/lv_k230_image_convert.c:1333-1338 | For that pair lane and scalar code agree on a pixel if and only if no channel exceeds its alpha; the routine is safe because equal formats are copied before. |
| ImageConvert.SelfConversion | 3rd-party/lvgl/port/lv_k230_image_convert.c:1410-1583 | Reading and writing a pixel in one format gives back its bytes, for every format but the premultiplied one, whose law is the next row; the unused byte of XRGB8888 is set. |
| ImageConvert.PremultipliedSurvives | 3rd-party/lvgl/port/lv_k230_image_convert.c:1450-1583 | Reading and writing a premultiplied pixel gives back its bytes if and only if no channel exceeds the alpha, alpha 0 and 255 included. |
| ImageConvert.UnmultipliedBack | 3rd-party/lvgl/port/lv_k230_image_convert.c:1450-1456 | Premultiplying what was divided by a non-zero alpha gives back the channel if and only if it does not exceed the alpha. |
| ImageConvert.UnmultipliedIsNearest | 3rd-party/lvgl/port/lv_k230_image_convert.c:1450-1456 | The division rounds to the nearest value, and to 255 when the channel exceeds the alpha. |
| ImageConvert.PremultipliedIsNearest | 3rd-party/lvgl/port/lv_k230_image_convert.c:1507-1583 | The multiplication rounds to the nearest value. |
| ImageConvert.ExpandedIsProportional | 3rd-party/lvgl/port/lv_k230_image_convert.c:1410-1499 | Channels of two to six bits are expanded in proportion, 0 to 0 and the largest to 255. |
| ImageConvert.LuminanceIsBt601 | 3rd-party/lvgl/port/lv_k230_image_convert.c:1501-1505 | Luminance is within one of the weighted sum of Recommendation ITU-R BT.601. |
| ImageConvert.FieldsOf | 3rd-party/lvgl/port/lv_k230_image_convert.c:1410-1499 | Where each channel lies in the 8- and 16-bit formats. |
| ImageConvert.RedFirst | 3rd-party/lvgl/port/lv_k230_image_convert.c:1323-1408 | A source with red first has its bytes reversed by both kinds of code. |
| ImageConvert.Lane565Reads | 3rd-party/lvgl/port/lv_k230_image_convert.c:980-1010 | The shifts of the vector code expand 565 like the scalar code. |
| ImageConvert.ExpandLaneReads | 3rd-party/lvgl/port/lv_k230_image_convert.c:949-1114 | Each lane of the expanding routine holds the colour the scalar reader reads. |
| ImageConvert.PackLaneWrites | 3rd-party/lvgl/port/lv_k230_image_convert.c:1216-1296 | Each lane of the packing routine stores the bytes the scalar writer writes. |
| ImageConvert.StoreLaneWrites | 3rd-party/lvgl/port/lv_k230_image_convert.c:1390-1399 | Storing planes is writing the pixel, with alpha forced or, when opaque, premultiplication doing nothing. |
| Raster.StripIsPixels | 3rd-party/lvgl/port/lv_k230_image_convert.c:945-1129 | Loading, computing and storing a strip of any length and going on behind it is doing its pixels one after the other. |
| Raster.LaneAgrees | 3rd-party/lvgl/port/lv_k230_rvv.c:76-177 | What a lane stores is what the reference makes of the pixel, for conversion, fill and blend. |
| Raster.ImagePixel | 3rd-party/lvgl/port/lv_k230_rvv.c:310-329 | Every pixel of a processed image is the job's pixel of what was there before and of the input that belongs to it. |
| Raster.ImageOutside | 3rd-party/lvgl/port/lv_k230_rvv.c:331-333 | Padding and everything around an image keep their value, at any stride. |
| Raster.VectorRow | 3rd-party/lvgl/port/lv_k230_image_convert.c:945-1129 | The strip-mining loop for any strip lengths. |
| Raster.VectorRows | 3rd-party/lvgl/port/lv_k230_image_convert.c:1343-1407 | The loop over rows around it. |
| Raster.ScalarRow | 3rd-party/lvgl/port/lv_k230_image_convert.c:1596-1612 | The pixel loop. |
| RvvBlend.MixColor | 3rd-party/lvgl/port/lv_k230_rvv.c:179-203 | The blended rectangle is the pixel-by-pixel reference for every size, stride, mask and opacity; a rectangle that cannot be handled is refused and untouched. |
| RvvBlend.FillColor | 3rd-party/lvgl/port/lv_k230_rvv.c:205-222 | The same for a plain fill. |
| RvvBlend.BlendedImage | 3rd-party/lvgl/port/lv_k230_rvv.c:250-333 | Each pixel is blended with its own mix, taken from opacity, mask or both; the fourth byte and all bytes outside the rows are kept. Generalises the fixed self-test. |
| RvvBlend.FilledImage | 3rd-party/lvgl/port/lv_k230_rvv.c:250-333 | After a fill each pixel is the opaque colour and nothing else has changed. |
| Blend.BlendLiesBetween | 3rd-party/lvgl/port/lv_k230_rvv.c:244-247 | A blended byte lies between colour and destination, or one below, because the weights sum to 255. |
| Blend.BlendMovesToColor | 3rd-party/lvgl/port/lv_k230_rvv.c:244-247 | More mix brings the byte nearer to the colour, from the destination or one below to the colour or one below. |
| Blend.CoverEnds | 3rd-party/lvgl/port/lv_k230_rvv.c:232-248 | No cover leaves a pixel as it is; full cover makes it blue, green, red of the colour and leaves a fourth byte, which a fill makes opaque. |
| Blend.MixCovers | 3rd-party/lvgl/port/lv_k230_rvv.c:314-320 | The mix is the opacity, the byte of the mask, or at most both. |
| Blend.CombinedMix | 3rd-party/lvgl/port/lv_k230_rvv.c:314-320 | Mask and opacity together: at most either, growing with either, and at an end of the scale the other or one less. |
| Blend.WeightedAgrees | 3rd-party/lvgl/port/lv_k230_rvv.c:103-108 | The 16-bit accumulator never wraps and its high byte is the weighted mean. |
| Blend.ScaledAgrees | 3rd-party/lvgl/port/lv_k230_rvv.c:95-99 | The product of mask and opacity fits 16 bits and its high byte is the combined mix. |
| Blend.ChannelAgrees | 3rd-party/lvgl/port/lv_k230_rvv.c:103-113 | The two merges give the reference's three cases, thresholds included. |
| Blend.MixPixelAgrees | 3rd-party/lvgl/port/lv_k230_rvv.c:232-248 | A blended lane equals the reference pixel. |
| Blend.FillAgrees | 3rd-party/lvgl/port/lv_k230_rvv.c:31-74 | Words, four planes and three planes store the same bytes. |
| IceCandidate.RoundTrip | 3rd-party/libpeer/src/ice.c:63-195 | For every IPv4 UDP host, reflexive or relayed candidate (section 5.1 of RFC 8839), parsing the printed line gives an equal candidate with the same foundation and priority if and only if its related address is of the kind its type calls for and, unless it is a host, is what the parser reads behind the first "raddr" and "rport" of the line. |
| IceCandidate.CreatedRoundTrip | 3rd-party/libpeer/src/ice.c:37-195 | For every candidate this code creates, whatever related address its slot holds, the law holds if and only if that is none for a host and an IPv4 address otherwise. |
| IceCandidate.PrintedIsParsed | 3rd-party/libpeer/src/ice.c:63-195 | Field by field what parsing a printed line gives, and when it is refused. |
| IceCandidate.MarkedFoundation | 3rd-party/libpeer/src/ice.c:170-191 | With no dot or colon in foundation and transport, a reflexive or relayed candidate survives if and only if its related address is an IPv4 one, neither word holds "raddr", and either neither holds "rport" or the number read behind its first occurrence, in the rest of the word or the number after it, is the related port. |
| IceCandidate.MarkedExample | 3rd-party/libpeer/src/ice.c:170-183 | The foundation "raddr" makes the parser refuse the line. |
| IceCandidate.MarkedPortExample | 3rd-party/libpeer/src/ice.c:184-190 | The foundation "rport" makes the parser take the component for the related port. |
| IceCandidate.RelatedRead | 3rd-party/libpeer/src/ice.c:170-191 | The related address and port that the parser reads from a printed line, wherever the markers first occur. |
| IceCandidate.UnmarkedRelated | 3rd-party/libpeer/src/ice.c:170-191 | Without markers in front they are the printed ones. |
| IceCandidate.ScanPrinted | 3rd-party/libpeer/src/ice.c:124-136 | The seven conversions of the format read the seven printed fields. |
| IceCandidate.Parse4Print4 | 3rd-party/libpeer/src/ice.c:84-92 | A dotted address reads back as itself. |
| IceCandidate.PriorityOrders | 3rd-party/libpeer/src/ice.c:32-35 | The priority fits 31 bits and orders candidates by type preference, then port, then component. |
| IceCandidate.SameEndpoint | 3rd-party/libpeer/src/ice.c:50-61 | Equal candidates have the same component, type, address and related address, whatever their foundations and priorities. |
| IceCandidate.TypeDecides | 3rd-party/libpeer/src/ice.c:12-35 | Whatever ports and components, host candidates come before reflexive, those before relayed, and those before ones learnt from the peer. |
| RemoteDescription.DescriptionRoundTrip | 3rd-party/libpeer/src/agent.c:1258-1347 | A description of any lines leaves exactly its last credentials and, in order, those of its candidates that are equal to none before them; it is refused exactly when a credential is empty or longer than 256, more than ten candidates differ, or a credential is missing. |
| RemoteDescription.StepApplies | 3rd-party/libpeer/src/agent.c:1292-1324 | What one line does: sets a credential, adds a new candidate, is passed over, or has the description refused. |
| RemoteDescription.Agent.SetRemoteDescription | 3rd-party/libpeer/src/agent.c:1258-1347 | The loop over the lines; a refused description leaves the agent as it was. |
| KeyQueue.ReleaseCarriesPress | 3rd-party/lvgl/port/lv_k230_input_hid.c:446-454 | In any stream of events the release of a key carries the value of its latest press or repeat, whatever Shift and Caps Lock did since. |
| KeyQueue.TableHoldsPress | 3rd-party/lvgl/port/lv_k230_input_hid.c:430-454 | The table holds, for every key that can be translated, what its latest press was translated to, by a definition over the whole stream. |
| KeyQueue.Modifiers | 3rd-party/lvgl/port/lv_k230_input_hid.c:430-444 | Shift follows the last event of either shift key and Caps Lock the parity of its presses. |
| KeyQueue.Translatable | 3rd-party/lvgl/port/lv_k230_input_hid.c:224-372 | Every translatable key has a place in the table, is no modifier, and is translatable under all modifiers. |
| KeyQueue.AmericanLayout | 3rd-party/lvgl/port/lv_k230_input_hid.c:224-318 | The four rows of an American keyboard and the keypad, plain and shifted; Shift and Caps Lock cancel each other. |
| KeyQueue.SpecialKeys | 3rd-party/lvgl/port/lv_k230_input_hid.c:320-372 | The keys without a character, by code; Tab alone depends on Shift. |
| KeyQueue.OtherKeys | 3rd-party/lvgl/port/lv_k230_input_hid.c:224-372 | No other key is translated. |
| KeyQueue.QueueKeepsNewest | 3rd-party/lvgl/port/lv_k230_input_hid.c:198-217 | Enqueuing keeps the newest 32 events in order and loses only the oldest. |
| KeyQueue.DeliveredInOrder | 3rd-party/lvgl/port/lv_k230_input_hid.c:471-505 | Over any sequence of reads every key event is delivered once and in order or still queued, except the oldest beyond 32 of a batch. |
| KeyQueue.ReportLaw | 3rd-party/lvgl/port/lv_k230_input_hid.c:471-505 | At the end of any run a read reports the event it delivers, with its own tick, and asks to go on just when events are left; without an event it reports the key and state delivered last with the tick of the read. |
| KeyQueue.BatchEnds | 3rd-party/lvgl/port/lv_k230_input_hid.c:410-469 | A collection takes frames while there is room, at most sixteen, and ends only when the queue is full, sixteen are taken or the driver has no more. |
| KeyQueue.LossIsBounded | 3rd-party/lvgl/port/lv_k230_input_hid.c:410-469 | A batch stops once the queue is full, so at most one frame less one event can be lost, and frames of one event lose nothing. |
| KeyQueue.KeyboardOfRun | 3rd-party/lvgl/port/lv_k230_input_hid.c:471-505 | The keyboard state after any reads is that of the whole stream of events they handled. |
| KeyQueue.Context.Enqueue | 3rd-party/lvgl/port/lv_k230_input_hid.c:198-217 | In place: a full queue drops its oldest event; key 0 is refused. |
| KeyQueue.Context.Handle | 3rd-party/lvgl/port/lv_k230_input_hid.c:425-464 | One event in place: modifiers, table and queue. |
| KeyQueue.Context.Collect | 3rd-party/lvgl/port/lv_k230_input_hid.c:410-469 | The reading loop with its three ends. |
| KeyQueue.Context.KeypadRead | 3rd-party/lvgl/port/lv_k230_input_hid.c:471-505 | The read callback: collects only when the queue is empty, delivers the first event, and otherwise repeats the active key. |

## Left out

- Sockets, DNS, mDNS, TLS and DTLS calls, SRTP, SCTP, signalling over MQTT and HTTP: foreign calls.
- TURN allocation, permissions, channels and refresh: a set-up is ready, not ready or failed. Binding requests, peer-reflexive candidates and the consent timeout.
- The outcome of a send, and the clearing of timestamps that only the consent timeout reads.
- Selected and nominated pointers that survive a rebuilt checklist are kept as the code keeps them; stability is stated within one checklist.
- Long-term STUN credentials; the copies of user name, realm and nonce that the writer keeps for them; logging of addresses.
- The generic audio packets of RTP, and a missing packet callback.
- PeerConnection.Reassembler.Reassemble: the error numbers are those of Mbed TLS, which is not part of this model.
- Display: cache flushes, frame rate printing, timers, the wait and abort when the video output reports an error, a failed push of a frame (which the code only reports), unknown draw buffers, and the shortcut of a colour format change that keeps the pixel format.
- Display.Instance.BufferDeinit: destroying the pool always succeeds; in the code a failure is reported, the pool stays allocated and its identifier is cleared all the same.
- ImageCopy.DrawBufCopy: starts behind the hardware conversion, the copy of equal formats and the big-endian 565 sources, so it assumes the equal-format copy has been taken; source and destination do not overlap; offsets are not reduced to 32 bits and strides are not negative.
- Raster.VectorRow: addresses are offsets; whether a strip starts at an aligned address is a free choice, and alignment faults of the processor are not modelled.
- RvvBlend.MixColor: the largest opacity that blends belongs to LVGL, which is not part of this model; it is a parameter from 1 to 255. Negative strides.
- IceCandidate.Parse: numbers that do not fit 64 bits, text after an embedded zero byte, and what lies behind the end of a line that ends with "raddr" or "rport". IPv6 text is an arbitrary pair of functions. Printing and parsing fill structures and buffers in the code and are functions here; a description buffer that is too short is not modelled.
- IceCandidate.MarkedFoundation: speaks of foundations and transports without dots and colons, as RFC 8839 has them; for others the condition is that of IceCandidate.RoundTrip.
- KeyQueue: the mouse and touch pointer, devices that disappear, and the clearing of the state when the device is reopened. LVGL's key codes are written out as numbers.
- IceAgent.Agent.SendCheck: the contents and the route of the request.
- Audio, camera, FreeType, OpenBLAS, minihttp and the other ports and headers.
