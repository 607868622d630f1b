# NTRIP correction relay, modelled in Dafny

`src/ntrip_forwarding.py` is a ROS node that relays RTCM 3 correction data.
It logs in to an NTRIP caster over TCP and polls that connection. Every chunk
it reads goes onto a correction queue. A relay thread broadcasts each queued
chunk as one UDP datagram. In the other direction, a ROS timer queues the
latest GGA position sentence, and the poll loop writes it to the caster as a
keep-alive. If too many poll cycles pass without correction data after a
keep-alive went out, the connection is dropped and set up again.

This project models that core and proves what it promises:

- `rtcm.dfy` (module `Rtcm`): the header arithmetic that the status line
  prints. The length is bytes 1–2 as a 16-bit word and the message number is
  bytes 3–4 divided by 16. It also defines a standard-header encoder, as
  section 4 of RTCM Standard 10403 lays the header out, to serve as the
  inverse.
- `base64.dfy` (module `Base64`): the encoding that `base64.b64encode`
  applies to the credential, following section 4 of RFC 4648. It comes with a
  decoder and the round trip between the two.
- `bytes.dfy`, `wrappers.dfy`: Python 2 byte strings as characters below 256,
  and `Option`.
- `handshake.dfy` (module `Handshake`): the request text of
  `connect_to_ntrip_caster` and the test `'ICY 200 OK' in response`, as a
  substring search. It also has a parser that reads the mountpoint, user-id
  and password back out of a request.
- `caster_session.dfy` (module `CasterSession`): one pass of the poll loop of
  `NtripSocketThread.run`, written as a function of the world's inputs, and
  whole runs of it. The world's inputs are the connect attempt, what the
  readiness wait reported and the chunk that was read.
- `relay.dfy` (module `Relay`): one relay pass, one timer firing, and any
  interleaving of these actors' steps with the poll cycles.
- `threads.dfy` (module `Threads`): the classes that hold state, with their
  fields updated in place.
  - `Fifo` stands for `Queue.Queue`.
  - `NtripSocketThread`, `ReceiverThread` and `RosInterface` each have their
    methods and loops.
  - Every method that changes the loop or relay state is proved against the
    function of `CasterSession` or `Relay` that describes it; the queue
    operations, the stop requests and `RecvGga` have direct contracts.

The stop request of another thread is an input: `Run` takes a sequence of
ticks, and each tick is a stop request or the inputs of one more cycle.

Some behaviours of the code matter when reading the model:

- Line 66 looks for `ICY 200 OK` anywhere in the first chunk the caster
  returns, not only in the response head before the blank line.
  `Handshake.Accepted` does the same (see `Handshake.AcceptedAnywhere`).
- Section 4 of RTCM Standard 10403 makes the length the low 10 bits of
  bytes 1–2. Line 97 does not mask them, so the six reserved bits are part
  of the reported length. `Rtcm.ReportedLengthVersusStandard` states exactly
  when the two agree.
- A failed attempt (lines 44-47, 62-64, 69-71) does not close the socket it
  opened; the next attempt opens a fresh one (line 39).
- A select error (lines 87-91) closes the socket and disconnects but leaves
  the staleness counter as it is, unlike the staleness reset at lines
  118-122 (see `CasterSession.SelectErrorDisconnects`).
- A failing `send`, `sendto` or `recv` (lines 52, 94, 113, 152) is not
  caught: it ends the thread rather than reconnecting or skipping the
  datagram.

## Model

| member | source | states |
|---|---|---|
| Rtcm.ReportedLength | src/ntrip_forwarding.py:97 | the reported length is below 65536; its high byte is byte 1 and its low byte is byte 2, so the reserved bits are not masked off |
| Rtcm.MessageNumber | src/ntrip_forwarding.py:98 | the number is below 4096; its top eight bits are byte 3 and its low four bits are the high nibble of byte 4 |
| Rtcm.Inspect | src/ntrip_forwarding.py:96-102 | a chunk gets a message report exactly when it starts with 0xD3, carrying `MessageNumber` and `ReportedLength` of the chunk (below 4096 and 65536); otherwise its first byte is reported |
| Rtcm.InspectHeader | src/ntrip_forwarding.py:96-98 | inspecting a header laid out as the standard says gives back the number and the 10-bit length it was written with, whatever follows it |
| Rtcm.ReportedLengthVersusStandard | src/ntrip_forwarding.py:97 | the reported length equals the standard's 10-bit length if and only if the reserved bits are zero; otherwise it is at least 1024 |
| Rtcm.Message1005Example | src/ntrip_forwarding.py:96-98 | D3 00 13 3E D0 is reported as message 1005 with length 19 |
| Base64.Encode | src/ntrip_forwarding.py:49 | the encoding has 4·⌈n/3⌉ characters, all of them from the base 64 alphabet or the pad `=` |
| Base64.DecodeEncode | src/ntrip_forwarding.py:49 | decoding the encoding of any octet string gives that string back |
| Handshake.Credential | src/ntrip_forwarding.py:49 | the credential decodes to the octets of user-id, colon, password |
| Handshake.Request | src/ntrip_forwarding.py:50-51 | the request starts with `GET /` and ends with the blank line; it is at least as long as its fixed parts and the mountpoint |
| Handshake.ParseRequestRoundTrip | src/ntrip_forwarding.py:49-51 | reading a request back gives its mountpoint, user-id and password, for a mountpoint without spaces and a user-id without a colon |
| Handshake.IndexOf | src/ntrip_forwarding.py:66 | the search finds the first position at or after its start where the pattern occurs, or reports none if it occurs nowhere there |
| Handshake.ContainsIff | src/ntrip_forwarding.py:66 | `Contains` holds if and only if the pattern occurs at some position |
| Handshake.AcceptedAnywhere | src/ntrip_forwarding.py:66-68 | a chunk holding the marker anywhere, after a blank line too, is accepted |
| Handshake.ShortResponseRejected | src/ntrip_forwarding.py:69-71 | a chunk shorter than the marker, the empty chunk included, is rejected |
| Handshake.AcceptedExtends | src/ntrip_forwarding.py:66 | an accepted chunk stays accepted with any text before and after it |
| Handshake.SucceedsIff | src/ntrip_forwarding.py:54-71 | an attempt succeeds if and only if a chunk came back and the marker occurs in it |
| Handshake.Accepted | src/ntrip_forwarding.py:66 | the substring test on the first chunk; specified by `AcceptedAnywhere`, `ShortResponseRejected`, `AcceptedExtends` and `ContainsIff` |
| Handshake.Succeeds | src/ntrip_forwarding.py:54-71 | an attempt returns true only with an answer that is accepted; specified by `SucceedsIff` |
| Base64.AladdinExample | src/ntrip_forwarding.py:49 | the octets of `Aladdin:open sesame` encode to `QWxhZGRpbjpvcGVuIHNlc2FtZQ==`, the example of RFC 7617 section 2 |
| CasterSession.Connect | src/ntrip_forwarding.py:77-82 | the connect step: connected exactly when the attempt succeeds, and the request recorded unless the connect failed; specified by `FailedConnectChangesNothing` and `NoHandshakeNoTraffic` |
| CasterSession.EnsureConnected | src/ntrip_forwarding.py:77-82 | a live connection is left alone, otherwise the connect step runs; specified by `FailedConnectChangesNothing` |
| CasterSession.Read | src/ntrip_forwarding.py:93-105 | a non-empty chunk is logged, queued whole and resets the counter; specified by `CycleQueuesRead`, `ChunkResetsCounter` and `EmptyReadIsNoRead` |
| CasterSession.Write | src/ntrip_forwarding.py:109-116 | a writable socket takes the head of the keep-alive queue and sets `sentGga`; specified by `CycleWritesHead` and `SentGgaSticky` |
| CasterSession.EndOfCycle | src/ntrip_forwarding.py:118-125 | the staleness reset past 200, then the count; specified by `CycleKeepsInv`, `QuietCycleCounts` and `StaleCycleReconnects` |
| CasterSession.Exchange | src/ntrip_forwarding.py:85-125 | a failing wait disconnects, otherwise read, write and count; specified by `SelectErrorDisconnects` and the per-cycle lemmas |
| CasterSession.Cycle | src/ntrip_forwarding.py:77-125 | one pass of the loop; specified by `CycleKeepsInv`, `CycleQueuesRead`, `CycleWritesHead`, `ChunkResetsCounter`, `QuietCycleCounts`, `StaleCycleReconnects`, `SentGgaSticky`, `FailedConnectChangesNothing` and `SelectErrorDisconnects` |
| CasterSession.Run | src/ntrip_forwarding.py:75-127 | the cycles of a run in order; specified by `RunKeepsInv`, `RunQueuesReads`, `RunWritesInOrder`, `NoHandshakeNoTraffic`, `QuietRunCounts` and `StaleTimeoutFiresOnce` |
| CasterSession.RunTicks | src/ntrip_forwarding.py:75-127 | the loop over ticks up to the first stop request; specified by `RunTicksIsRun` |
| CasterSession.Start | src/ntrip_forwarding.py:25-28 | the thread starts disconnected, with no keep-alive sent, with the counter at zero and the counter invariant holding |
| CasterSession.CycleQueuesRead | src/ntrip_forwarding.py:93-105 | a cycle appends the chunk it read to the correction queue whole and unchanged, preamble or not, and appends exactly `Inspect` of that chunk to the log; a cycle that reads nothing leaves both alone |
| CasterSession.CycleWritesHead | src/ntrip_forwarding.py:109-116 | a cycle writes at most one keep-alive, only when connected and writable; it is the head of the keep-alive queue, and only that head leaves the queue |
| CasterSession.CycleKeepsInv | src/ntrip_forwarding.py:118-125 | the counter stays between 0 and 201, and at 0 until a keep-alive has been sent |
| CasterSession.ChunkResetsCounter | src/ntrip_forwarding.py:104-125 | a cycle that reads a chunk ends connected, with the counter at 1 if a keep-alive was ever sent and at 0 otherwise |
| CasterSession.EmptyReadIsNoRead | src/ntrip_forwarding.py:93-95 | a readable socket that yields an empty chunk gives the same cycle as a socket that is not readable |
| CasterSession.QuietCycleCounts | src/ntrip_forwarding.py:118-125 | within the limit, a completed cycle without a chunk stays connected and adds exactly one to the counter once a keep-alive was sent, and nothing before that |
| CasterSession.StaleCycleReconnects | src/ntrip_forwarding.py:118-125 | past 200, a completed cycle without a chunk disconnects and leaves the counter at 1 |
| CasterSession.SentGgaSticky | src/ntrip_forwarding.py:114 | after a cycle, a keep-alive has been sent if and only if one had been sent before or this cycle sent one |
| CasterSession.FailedConnectChangesNothing | src/ntrip_forwarding.py:77-82 | a failed connect leaves everything but the record of requests; a request goes out unless the connect itself failed |
| CasterSession.SelectErrorDisconnects | src/ntrip_forwarding.py:85-91 | a failing readiness wait disconnects and leaves the counter, the queues and everything else alone |
| CasterSession.RunKeepsInv | src/ntrip_forwarding.py:75-127 | the counter invariant holds after any number of cycles |
| CasterSession.RunQueuesReads | src/ntrip_forwarding.py:93-105 | after a run, the correction queue is what it held followed by every chunk read, in order |
| CasterSession.RunWritesInOrder | src/ntrip_forwarding.py:109-116 | after a run, the keep-alives written followed by those still queued are exactly those written and queued at the start |
| CasterSession.NoHandshakeNoTraffic | src/ntrip_forwarding.py:77-82 | until a handshake succeeds, nothing is queued, written or logged, and the counter does not move |
| CasterSession.QuietRunCounts | src/ntrip_forwarding.py:118-125 | on a live connection that has sent a keep-alive, k quiet cycles add exactly k to the counter and keep the connection, while the counter stays within 201 |
| CasterSession.StaleTimeoutFiresOnce | src/ntrip_forwarding.py:118-125 | quiet cycles keep the connection up while the counter climbs to 201; the next one, with the counter above 200, drops it exactly once and leaves the counter at 1 |
| CasterSession.BeforeStop | src/ntrip_forwarding.py:75 | the cycles run are the leading ticks that are not stop requests; the tick after them, if any, is a stop request |
| CasterSession.RunTicksIsRun | src/ntrip_forwarding.py:75-127 | taking the ticks one by one runs exactly the cycles before the first stop request |
| Relay.Step | src/ntrip_forwarding.py:93-203 | one step of one actor; specified by `StepKeepsChannels` |
| Relay.Steps | src/ntrip_forwarding.py:93-203 | an interleaving of steps; specified by `StepsKeepChannels`, `StepsKeepInv` and `LatestSentenceWins` |
| Relay.TimerEnqueues | src/ntrip_forwarding.py:198-203 | a firing queues the fixed sentence in test mode; otherwise it queues the latest sentence if and only if that sentence is non-empty |
| Relay.Forward | src/ntrip_forwarding.py:149-155 | a pass broadcasts at most one chunk, the head of the queue, unchanged: broadcast followed by queue is preserved |
| Relay.ForwardTimes | src/ntrip_forwarding.py:147-157 | n passes keep broadcast followed by queue, and broadcast min(n, queue length) chunks |
| Relay.PassesBeforeStop | src/ntrip_forwarding.py:147 | the passes that run are the leading ticks before the first stop request |
| Relay.CycleKeepsReadChannel | src/ntrip_forwarding.py:93-105 | a poll cycle keeps the correction channel: what was broadcast, then what is queued, is everything read |
| Relay.CycleKeepsWriteChannel | src/ntrip_forwarding.py:109-116 | a poll cycle keeps the keep-alive channel: what was written, then what is queued, is everything the timer queued |
| Relay.RelayPassKeepsChannels | src/ntrip_forwarding.py:147-157 | a relay pass keeps both channels |
| Relay.TimerKeepsChannels | src/ntrip_forwarding.py:198-203 | whatever a timer firing queues keeps both channels |
| Relay.StepKeepsChannels | src/ntrip_forwarding.py:93-203 | any single step of any actor keeps both channels |
| Relay.StepsKeepChannels | src/ntrip_forwarding.py:93-203 | every interleaving of poll cycles, relay passes, sentences and timer firings loses, reorders and alters no chunk and no keep-alive |
| Relay.StepsKeepInv | src/ntrip_forwarding.py:118-125 | the counter invariant survives every interleaving |
| Relay.Initial | src/ntrip_forwarding.py:17-18 | the system starts disconnected with both queues empty, nothing broadcast, read or queued, no keep-alive sent, both channels intact and the invariant holding |
| Relay.LatestSentenceWins | src/ntrip_forwarding.py:195-203 | of two sentences received before a firing, only the later one is queued (outside test mode, when the later sentence is non-empty; `TimerEnqueues` states that an empty one queues nothing and that test mode queues the dummy sentence) |
| Threads.Fifo.constructor | src/ntrip_forwarding.py:17-18 | a new queue is empty |
| Threads.Fifo.Put | src/ntrip_forwarding.py:104 | the item is appended at the tail |
| Threads.Fifo.GetNowait | src/ntrip_forwarding.py:111-116 | the head is taken and returned; an empty queue returns nothing and stays empty |
| Threads.NtripSocketThread.constructor | src/ntrip_forwarding.py:22-33 | the new thread is in the start state over the two queues and is not stopped |
| Threads.NtripSocketThread.Stop | src/ntrip_forwarding.py:132-133 | the stop flag is set |
| Threads.NtripSocketThread.ConnectToNtripCaster | src/ntrip_forwarding.py:35-71 | the result is the attempt's success; the request is written unless the connect itself failed |
| Threads.NtripSocketThread.ReadChunk | src/ntrip_forwarding.py:93-105 | the state becomes `Read` of the old state |
| Threads.NtripSocketThread.SendKeepAlive | src/ntrip_forwarding.py:109-116 | the state becomes `Write` of the old state |
| Threads.NtripSocketThread.CountStaleCycle | src/ntrip_forwarding.py:118-125 | the state becomes `EndOfCycle` of the old state |
| Threads.NtripSocketThread.ExchangeStep | src/ntrip_forwarding.py:85-125 | the state becomes `Exchange` of the old state and the poll result |
| Threads.NtripSocketThread.PollCycle | src/ntrip_forwarding.py:77-127 | the state becomes `Cycle` of the old state; the counter invariant is kept and the stop flag is untouched |
| Threads.NtripSocketThread.Step | src/ntrip_forwarding.py:75-82 | a stop request sets the flag and changes nothing else; an input runs one cycle |
| Threads.NtripSocketThread.Run | src/ntrip_forwarding.py:73-127 | the loop ends in `RunTicks` of the start state, which is the run of the cycles before the first stop request; the flag ends set exactly when it was set or a stop request was among the ticks; a thread already stopped changes nothing |
| Threads.ReceiverThread.constructor | src/ntrip_forwarding.py:137-143 | the new relay has broadcast nothing and is not stopped |
| Threads.ReceiverThread.Stop | src/ntrip_forwarding.py:159-160 | the stop flag is set |
| Threads.ReceiverThread.RelayPass | src/ntrip_forwarding.py:149-155 | the queue and the broadcast become `Forward` of the old ones |
| Threads.ReceiverThread.Run | src/ntrip_forwarding.py:145-157 | the loop makes one pass per tick before the first stop request; what was broadcast followed by what still waits never changes; the stop flag ends set exactly when it was set or a stop request was among the ticks |
| Threads.RosInterface.constructor | src/ntrip_forwarding.py:192 | no sentence is stored at start |
| Threads.RosInterface.RecvGga | src/ntrip_forwarding.py:195-196 | the stored sentence is replaced by the new one |
| Threads.RosInterface.GgaTimerCb | src/ntrip_forwarding.py:198-203 | the keep-alive queue gains exactly `TimerEnqueues` of the stored sentence |

## Left out

- Sockets, `select.select`, `recv`, `send` and `sendto` are not modelled. A
  cycle takes what they returned as its input: the connect attempt, whether
  the wait failed, the read chunk, and whether the socket was writable.
- The connect and wait timeouts, the read buffer sizes and the 50 ms sleeps
  are not modelled. They bound a blocking call or pace the loop; they do not
  choose a branch.
- The EAGAIN retry loop of the handshake (lines 54-60) is not modelled. It is
  folded into one outcome: the first chunk read, or a real read error.
- Opening a fresh socket per attempt and every `close()` call are not
  modelled, because socket objects are not.
- Threads, `threading.Event`, `join` and the locking inside `Queue.Queue` are
  not modelled. The queues are plain sequences, and the stop flag is read at
  the top of each pass. Concurrency appears only as the interleavings of
  `Relay.Steps`.
- Threads.ReceiverThread.Run: states the loop's effect only when no other
  thread puts into the queue meanwhile. Interleaving with producers is what
  `Relay.StepsKeepChannels` covers.
- Threads.NtripSocketThread.Run: the final `close()` after the loop is not
  modelled, as above.
- Uncaught exceptions are preconditions, not behaviour:
  - a chunk that starts with 0xD3 but has fewer than five bytes raises
    `IndexError`; `WellFormed` excludes it;
  - the credential must be a byte string for `b64encode`; `Config.Valid`
    requires it;
  - a failing `send` (lines 52, 113) or `sendto` (line 152) raises and ends
    the thread; the model treats these writes as always succeeding, which
    also covers a chunk longer than 65,507 bytes (the largest IPv4 UDP
    payload) that `recv(100000)` can return: that chunk always makes
    `sendto` fail;
  - a failing `recv` in the poll loop (line 94), a connection reset for
    instance, raises and ends the thread; the model treats that read as
    always returning a chunk, possibly empty.
- `base64.b64encode` is a library call. It is modelled from section 4 of
  RFC 4648 rather than taken from its code.
- `print` is not modelled. Only the per-chunk status line is kept, as a
  `Report` in `log`, because that line carries the header arithmetic.
- `start_threads`, `stop_threads`, `on_shutdown`, the rospy parameters, the
  Timer and the Subscriber are not modelled. They are wiring of the host
  framework.
- The constant `test_mode` is a parameter here (`testMode`) so that both of
  its branches can be stated.
- The broadcast address and port are not modelled. They are deployment
  constants with no logic.
