/**
 * The caster connection's poll loop as a function of its inputs. One cycle
 * connects (when disconnected), then reads at most one chunk into the
 * correction queue, writes at most one position sentence from the
 * keep-alive queue, and counts the cycles without correction data since a
 * keep-alive went out; too many of them drop the connection.
 */
module CasterSession {
  import opened Bytes
  import opened Rtcm
  import Handshake

  /** A position sentence (a GGA line) as the keep-alive queue carries it. */
  type Sentence = string

  /** More consecutive cycles than this without correction data force a reconnect. */
  const StaleLimit: nat := 200

  /** The connection parameters, fixed at start-up. */
  datatype Config = Config(mountpoint: string, username: string, password: string)
  {
    /** The credential is a byte string, as the base 64 encoder needs. */
    predicate Valid() {
      IsByteString(username + ":" + password)
    }

    function Request(): string
      requires Valid()
    {
      Handshake.Request(mountpoint, username, password)
    }
  }

  /** The connection's state together with the two queues it shares and what it has written. */
  datatype Session = Session(
    connected: bool,           // the handshake succeeded and no error or timeout has followed
    staleCount: int,           // cycles since the last chunk, counted once a keep-alive was sent
    sentGga: bool,             // a keep-alive has been sent at least once
    rtcmQueue: seq<Frame>,     // correction data waiting for the relay
    ggaQueue: seq<Sentence>,   // keep-alives waiting to be sent
    requests: seq<string>,     // handshake requests written to the caster
    keepAlives: seq<Sentence>, // position sentences written to the caster
    log: seq<Report>)          // status lines for received chunks

  /** The state before the first cycle, over whatever the queues hold already. */
  function Start(rtcmQueue: seq<Frame>, ggaQueue: seq<Sentence>): (s: Session)
    ensures Inv(s) && !s.connected && !s.sentGga
  {
    Session(false, 0, false, rtcmQueue, ggaQueue, [], [], [])
  }

  /** What the readiness wait reports for one cycle, and what the read returned. */
  datatype Poll =
    | SelectFailed
    | Ready(readable: bool, chunk: Frame, writable: bool)

  /** The world's side of one cycle; the attempt matters only while disconnected. */
  datatype CycleInput = CycleInput(attempt: Handshake.Attempt, poll: Poll)

  /**
   * A chunk that starts with the preamble has its five header bytes: a
   * shorter one makes the inspection index past the end and ends the loop
   * with an exception.
   */
  predicate WellFormed(input: CycleInput) {
    input.poll.Ready? && input.poll.readable && |input.poll.chunk| > 0 ==> Inspectable(input.poll.chunk)
  }

  /** The counter stays within one above the limit, and at zero until a keep-alive has gone out. */
  predicate Inv(s: Session) {
    0 <= s.staleCount <= StaleLimit + 1 && (!s.sentGga ==> s.staleCount == 0)
  }

  /** The connect step, taken only while disconnected. */
  function Connect(cfg: Config, s: Session, a: Handshake.Attempt): Session
    requires cfg.Valid() && !s.connected
  {
    var sent := if a.ConnectFailed? then [] else [cfg.Request()];
    s.(connected := Handshake.Succeeds(a), requests := s.requests + sent)
  }

  /** A readable socket was read once; a non-empty chunk is logged and queued whole. */
  function Read(s: Session, readable: bool, chunk: Frame): Session
    requires readable && |chunk| > 0 ==> Inspectable(chunk)
  {
    if readable && |chunk| > 0 then
      s.(log := s.log + [Inspect(chunk)], rtcmQueue := s.rtcmQueue + [chunk], staleCount := 0)
    else s
  }

  /** A writable socket takes the oldest queued keep-alive, if there is one. */
  function Write(s: Session, writable: bool): Session {
    if writable && |s.ggaQueue| > 0 then
      s.(keepAlives := s.keepAlives + [s.ggaQueue[0]], ggaQueue := s.ggaQueue[1..], sentGga := true)
    else s
  }

  /** The staleness check, then the count of this cycle. */
  function EndOfCycle(s: Session): Session {
    var r := if s.staleCount > StaleLimit then s.(connected := false, staleCount := 0) else s;
    if r.sentGga then r.(staleCount := r.staleCount + 1) else r
  }

  /** The connect step if it is needed; a live connection is left alone. */
  function EnsureConnected(cfg: Config, s: Session, a: Handshake.Attempt): Session
    requires cfg.Valid()
  {
    if s.connected then s else Connect(cfg, s, a)
  }

  /** What a connected cycle does after the readiness wait. */
  function Exchange(s: Session, poll: Poll): Session
    requires poll.Ready? && poll.readable && |poll.chunk| > 0 ==> Inspectable(poll.chunk)
  {
    match poll
    case SelectFailed => s.(connected := false)
    case Ready(readable, chunk, writable) => EndOfCycle(Write(Read(s, readable, chunk), writable))
  }

  /** One pass of the poll loop. */
  function Cycle(cfg: Config, s: Session, input: CycleInput): Session
    requires cfg.Valid() && WellFormed(input)
  {
    var c := EnsureConnected(cfg, s, input.attempt);
    if c.connected then Exchange(c, input.poll) else c
  }

  /** The cycle gets past the connect step: already connected, or the handshake succeeds. */
  predicate ReachesPoll(s: Session, input: CycleInput) {
    s.connected || Handshake.Succeeds(input.attempt)
  }

  /** The cycle runs to its end rather than leaving early. */
  predicate Completes(s: Session, input: CycleInput) {
    ReachesPoll(s, input) && input.poll.Ready?
  }

  /** The chunk this cycle queues for the relay, if any. */
  function Received(s: Session, input: CycleInput): seq<Frame> {
    if Completes(s, input) && input.poll.readable && |input.poll.chunk| > 0 then [input.poll.chunk] else []
  }

  /** The keep-alive this cycle writes to the caster, if any. */
  function Sent(s: Session, input: CycleInput): seq<Sentence> {
    if Completes(s, input) && input.poll.writable && |s.ggaQueue| > 0 then [s.ggaQueue[0]] else []
  }

  /**
   * Every non-empty read is queued whole and unmodified behind what was
   * there, preamble or not, and logged once.
   */
  lemma CycleQueuesRead(cfg: Config, s: Session, input: CycleInput)
    requires cfg.Valid() && WellFormed(input)
    ensures Cycle(cfg, s, input).rtcmQueue == s.rtcmQueue + Received(s, input)
    ensures Cycle(cfg, s, input).log
         == s.log + if Received(s, input) == [] then [] else [Inspect(input.poll.chunk)]
  {
    var c := EnsureConnected(cfg, s, input.attempt);
    assert c.rtcmQueue == s.rtcmQueue && c.log == s.log;
    assert c.connected == ReachesPoll(s, input);
  }

  /**
   * Keep-alives leave the queue in order: the one written is the head that
   * was taken, and nothing else is removed.
   */
  lemma CycleWritesHead(cfg: Config, s: Session, input: CycleInput)
    requires cfg.Valid() && WellFormed(input)
    ensures Cycle(cfg, s, input).keepAlives == s.keepAlives + Sent(s, input)
    ensures Sent(s, input) + Cycle(cfg, s, input).ggaQueue == s.ggaQueue
  {
    var c := EnsureConnected(cfg, s, input.attempt);
    assert c.keepAlives == s.keepAlives && c.ggaQueue == s.ggaQueue;
    assert c.connected == ReachesPoll(s, input);
    if c.connected && input.poll.Ready? {
      var r := Read(c, input.poll.readable, input.poll.chunk);
      assert r.keepAlives == s.keepAlives && r.ggaQueue == s.ggaQueue;
      var w := Write(r, input.poll.writable);
      assert Cycle(cfg, s, input) == EndOfCycle(w);
      if Sent(s, input) != [] {
        assert Sent(s, input) + w.ggaQueue == [s.ggaQueue[0]] + s.ggaQueue[1..];
      }
    }
  }

  /** Moving a prefix of a queue onto the end of what was written leaves their concatenation alone. */
  lemma MoveToFront<T>(written: seq<T>, taken: seq<T>, rest: seq<T>, queue: seq<T>)
    requires taken + rest == queue
    ensures (written + taken) + rest == written + queue
  {
  }

  /** The counter invariant holds at the top of every loop iteration. */
  lemma CycleKeepsInv(cfg: Config, s: Session, input: CycleInput)
    requires cfg.Valid() && WellFormed(input) && Inv(s)
    ensures Inv(Cycle(cfg, s, input))
  {
  }

  /**
   * A chunk resets the counter: the cycle ends connected with the counter
   * at 0, or at 1 once a keep-alive has gone out.
   */
  lemma ChunkResetsCounter(cfg: Config, s: Session, input: CycleInput)
    requires cfg.Valid() && WellFormed(input)
    requires Received(s, input) != []
    ensures Cycle(cfg, s, input).connected
    ensures Cycle(cfg, s, input).staleCount == if Cycle(cfg, s, input).sentGga then 1 else 0
  {
  }

  /** An empty read is the same as no read at all. */
  lemma EmptyReadIsNoRead(cfg: Config, s: Session, a: Handshake.Attempt, writable: bool)
    requires cfg.Valid()
    ensures Cycle(cfg, s, CycleInput(a, Ready(true, [], writable)))
         == Cycle(cfg, s, CycleInput(a, Ready(false, [], writable)))
  {
  }

  /**
   * Without a chunk the counter rises by one per completed cycle once a
   * keep-alive has been sent, and stays put before that; the connection
   * stays up while the counter is within the limit.
   */
  lemma QuietCycleCounts(cfg: Config, s: Session, input: CycleInput)
    requires cfg.Valid() && WellFormed(input) && Inv(s)
    requires Completes(s, input) && Received(s, input) == []
    requires s.staleCount <= StaleLimit
    ensures Cycle(cfg, s, input).connected
    ensures Cycle(cfg, s, input).staleCount == s.staleCount + (if Cycle(cfg, s, input).sentGga then 1 else 0)
  {
  }

  /**
   * Past the limit, a completed cycle without a chunk drops the connection
   * and resets the counter, which the same cycle then counts again to 1:
   * `sentGga` is never cleared.
   */
  lemma StaleCycleReconnects(cfg: Config, s: Session, input: CycleInput)
    requires cfg.Valid() && WellFormed(input) && Inv(s)
    requires Completes(s, input) && Received(s, input) == []
    requires s.staleCount > StaleLimit
    ensures !Cycle(cfg, s, input).connected
    ensures Cycle(cfg, s, input).staleCount == 1
  {
  }

  /** `sentGga` becomes true with the first keep-alive written and stays true. */
  lemma SentGgaSticky(cfg: Config, s: Session, input: CycleInput)
    requires cfg.Valid() && WellFormed(input)
    ensures Cycle(cfg, s, input).sentGga <==> s.sentGga || Sent(s, input) != []
  {
  }

  /**
   * While disconnected, a failed attempt changes nothing but the record of
   * requests written: counter, `sentGga`, both queues and the log stay.
   */
  lemma FailedConnectChangesNothing(cfg: Config, s: Session, input: CycleInput)
    requires cfg.Valid() && WellFormed(input)
    requires !s.connected && !Handshake.Succeeds(input.attempt)
    ensures Cycle(cfg, s, input) == s.(requests := Cycle(cfg, s, input).requests)
    ensures Cycle(cfg, s, input).requests == s.requests + (if input.attempt.ConnectFailed? then [] else [cfg.Request()])
  {
  }

  /** A failing readiness wait drops the connection and touches neither the counter nor the queues. */
  lemma SelectErrorDisconnects(cfg: Config, s: Session, input: CycleInput)
    requires cfg.Valid() && WellFormed(input)
    requires ReachesPoll(s, input) && input.poll.SelectFailed?
    ensures !Cycle(cfg, s, input).connected
    ensures Cycle(cfg, s, input) == s.(connected := false, requests := Cycle(cfg, s, input).requests)
  {
  }

  /** Every input of a run is well formed. */
  predicate AllWellFormed(inputs: seq<CycleInput>) {
    forall i :: 0 <= i < |inputs| ==> WellFormed(inputs[i])
  }

  /** The state after running the cycles for `inputs`, in order. */
  function Run(cfg: Config, s: Session, inputs: seq<CycleInput>): Session
    requires cfg.Valid() && AllWellFormed(inputs)
    decreases |inputs|
  {
    if inputs == [] then s
    else Cycle(cfg, Run(cfg, s, inputs[..|inputs| - 1]), inputs[|inputs| - 1])
  }

  /** The chunks a run queues, in the order the cycles read them. */
  function ReceivedAlong(cfg: Config, s: Session, inputs: seq<CycleInput>): seq<Frame>
    requires cfg.Valid() && AllWellFormed(inputs)
    decreases |inputs|
  {
    if inputs == [] then []
    else
      var before := inputs[..|inputs| - 1];
      ReceivedAlong(cfg, s, before) + Received(Run(cfg, s, before), inputs[|inputs| - 1])
  }

  /** The counter invariant holds after any run that starts in it. */
  lemma {:induction false} RunKeepsInv(cfg: Config, s: Session, inputs: seq<CycleInput>)
    requires cfg.Valid() && AllWellFormed(inputs) && Inv(s)
    ensures Inv(Run(cfg, s, inputs))
    decreases |inputs|
  {
    if inputs != [] {
      var before := inputs[..|inputs| - 1];
      RunKeepsInv(cfg, s, before);
      CycleKeepsInv(cfg, Run(cfg, s, before), inputs[|inputs| - 1]);
    }
  }

  /**
   * Along a run, correction data is queued in the order it was read, and
   * nothing queued is lost or reordered.
   */
  lemma {:induction false} RunQueuesReads(cfg: Config, s: Session, inputs: seq<CycleInput>)
    requires cfg.Valid() && AllWellFormed(inputs)
    ensures Run(cfg, s, inputs).rtcmQueue == s.rtcmQueue + ReceivedAlong(cfg, s, inputs)
    decreases |inputs|
  {
    if inputs != [] {
      var before := inputs[..|inputs| - 1];
      RunQueuesReads(cfg, s, before);
      CycleQueuesRead(cfg, Run(cfg, s, before), inputs[|inputs| - 1]);
    }
  }

  /**
   * Along a run, keep-alives are written in the order they were queued:
   * what was written followed by what still waits is what was there.
   */
  lemma {:induction false} RunWritesInOrder(cfg: Config, s: Session, inputs: seq<CycleInput>)
    requires cfg.Valid() && AllWellFormed(inputs)
    ensures Run(cfg, s, inputs).keepAlives + Run(cfg, s, inputs).ggaQueue == s.keepAlives + s.ggaQueue
    decreases |inputs|
  {
    if inputs != [] {
      var before := inputs[..|inputs| - 1];
      var mid := Run(cfg, s, before);
      var x := inputs[|inputs| - 1];
      RunWritesInOrder(cfg, s, before);
      CycleWritesHead(cfg, mid, x);
      MoveToFront(mid.keepAlives, Sent(mid, x), Cycle(cfg, mid, x).ggaQueue, mid.ggaQueue);
    }
  }

  /**
   * Until a handshake succeeds the connection writes no keep-alive, queues
   * no correction data and logs no chunk.
   */
  lemma {:induction false} NoHandshakeNoTraffic(cfg: Config, s: Session, inputs: seq<CycleInput>)
    requires cfg.Valid() && AllWellFormed(inputs) && !s.connected
    requires forall i :: 0 <= i < |inputs| ==> !Handshake.Succeeds(inputs[i].attempt)
    ensures !Run(cfg, s, inputs).connected
    ensures Run(cfg, s, inputs).keepAlives == s.keepAlives
    ensures Run(cfg, s, inputs).rtcmQueue == s.rtcmQueue
    ensures Run(cfg, s, inputs).ggaQueue == s.ggaQueue
    ensures Run(cfg, s, inputs).log == s.log
    ensures Run(cfg, s, inputs).staleCount == s.staleCount
    decreases |inputs|
  {
    if inputs != [] {
      var before := inputs[..|inputs| - 1];
      NoHandshakeNoTraffic(cfg, s, before);
      FailedConnectChangesNothing(cfg, Run(cfg, s, before), inputs[|inputs| - 1]);
    }
  }

  /** A cycle that completes without correction data: the wait reported in time and no chunk was read. */
  predicate Quiet(input: CycleInput) {
    input.poll.Ready? && (input.poll.readable ==> input.poll.chunk == [])
  }

  /**
   * On a live connection that has sent a keep-alive, every quiet cycle adds
   * one to the counter, and the connection stays up while the counter is
   * within one above the limit.
   */
  lemma {:induction false} QuietRunCounts(cfg: Config, s: Session, inputs: seq<CycleInput>)
    requires cfg.Valid() && AllWellFormed(inputs) && Inv(s)
    requires s.connected && s.sentGga
    requires forall i :: 0 <= i < |inputs| ==> Quiet(inputs[i])
    requires s.staleCount + |inputs| <= StaleLimit + 1
    ensures Run(cfg, s, inputs).connected && Run(cfg, s, inputs).sentGga
    ensures Run(cfg, s, inputs).staleCount == s.staleCount + |inputs|
    decreases |inputs|
  {
    if inputs != [] {
      var before := inputs[..|inputs| - 1];
      var mid := Run(cfg, s, before);
      QuietRunCounts(cfg, s, before);
      RunKeepsInv(cfg, s, before);
      QuietCycleCounts(cfg, mid, inputs[|inputs| - 1]);
      SentGgaSticky(cfg, mid, inputs[|inputs| - 1]);
    }
  }

  /**
   * The staleness timeout fires exactly once on a quiet connection: it
   * stays up through the cycles that take the counter to 201, and the next
   * quiet cycle drops it, leaving the counter at 1.
   */
  lemma StaleTimeoutFiresOnce(cfg: Config, s: Session, inputs: seq<CycleInput>)
    requires cfg.Valid() && AllWellFormed(inputs) && Inv(s)
    requires s.connected && s.sentGga
    requires forall i :: 0 <= i < |inputs| ==> Quiet(inputs[i])
    requires s.staleCount + |inputs| == StaleLimit + 2
    ensures forall k :: 0 <= k < |inputs| ==> Run(cfg, s, inputs[..k]).connected
    ensures !Run(cfg, s, inputs).connected && Run(cfg, s, inputs).staleCount == 1
  {
    forall k | 0 <= k < |inputs|
      ensures Run(cfg, s, inputs[..k]).connected
    {
      QuietRunCounts(cfg, s, inputs[..k]);
    }
    var before := inputs[..|inputs| - 1];
    QuietRunCounts(cfg, s, before);
    StaleCycleReconnects(cfg, Run(cfg, s, before), inputs[|inputs| - 1]);
  }

  /** A loop iteration: another thread's stop request, or one more cycle. */
  datatype Tick = Stop | Next(input: CycleInput)

  /**
   * The cycles run before the loop sees a stop request: the inputs of the
   * ticks up to the first `Stop`.
   */
  function BeforeStop(ticks: seq<Tick>): (inputs: seq<CycleInput>)
    ensures |inputs| <= |ticks|
    ensures forall i :: 0 <= i < |inputs| ==> ticks[i] == Next(inputs[i])
    ensures |inputs| < |ticks| ==> ticks[|inputs|] == Stop
  {
    if ticks == [] || ticks[0].Stop? then [] else [ticks[0].input] + BeforeStop(ticks[1..])
  }

  /** Every cycle the ticks ask for has a well-formed input. */
  predicate TicksWellFormed(ticks: seq<Tick>) {
    forall i :: 0 <= i < |ticks| && ticks[i].Next? ==> WellFormed(ticks[i].input)
  }

  /** The state after the loop has taken the ticks in order, up to the first stop request. */
  function RunTicks(cfg: Config, s: Session, ticks: seq<Tick>): Session
    requires cfg.Valid() && TicksWellFormed(ticks)
    decreases |ticks|
  {
    if ticks == [] || ticks[0].Stop? then s
    else RunTicks(cfg, Cycle(cfg, s, ticks[0].input), ticks[1..])
  }

  /** The loop from tick `i` on: a stop ends it, a cycle is followed by the rest. */
  lemma RunTicksFrom(cfg: Config, s: Session, ticks: seq<Tick>, i: nat)
    requires cfg.Valid() && TicksWellFormed(ticks) && i < |ticks|
    ensures TicksWellFormed(ticks[i..]) && TicksWellFormed(ticks[i + 1..])
    ensures RunTicks(cfg, s, ticks[i..])
         == if ticks[i].Stop? then s else RunTicks(cfg, Cycle(cfg, s, ticks[i].input), ticks[i + 1..])
  {
    assert ticks[i..][0] == ticks[i] && ticks[i..][1..] == ticks[i + 1..];
  }

  /** A run extended at the front starts with that input's cycle. */
  lemma {:induction false} RunCons(cfg: Config, s: Session, x: CycleInput, inputs: seq<CycleInput>)
    requires cfg.Valid() && WellFormed(x) && AllWellFormed(inputs)
    ensures AllWellFormed([x] + inputs)
    ensures Run(cfg, s, [x] + inputs) == Run(cfg, Cycle(cfg, s, x), inputs)
    decreases |inputs|
  {
    var xs := [x] + inputs;
    assert forall i :: 0 < i < |xs| ==> xs[i] == inputs[i - 1];
    if inputs != [] {
      var before := inputs[..|inputs| - 1];
      var last := inputs[|inputs| - 1];
      RunCons(cfg, s, x, before);
      assert xs[..|xs| - 1] == [x] + before && xs[|xs| - 1] == last;
      calc {
        Run(cfg, s, xs);
        Cycle(cfg, Run(cfg, s, [x] + before), last);
        Cycle(cfg, Run(cfg, Cycle(cfg, s, x), before), last);
        Run(cfg, Cycle(cfg, s, x), inputs);
      }
    }
  }

  /** Taking the ticks one by one runs exactly the cycles before the first stop request. */
  lemma {:induction false} RunTicksIsRun(cfg: Config, s: Session, ticks: seq<Tick>)
    requires cfg.Valid() && TicksWellFormed(ticks)
    ensures AllWellFormed(BeforeStop(ticks))
    ensures RunTicks(cfg, s, ticks) == Run(cfg, s, BeforeStop(ticks))
    decreases |ticks|
  {
    var inputs := BeforeStop(ticks);
    assert forall i :: 0 <= i < |inputs| ==> ticks[i] == Next(inputs[i]);
    if ticks != [] && ticks[0].Next? {
      assert forall j :: 0 <= j < |ticks[1..]| ==> ticks[1..][j] == ticks[1 + j];
      RunTicksIsRun(cfg, Cycle(cfg, s, ticks[0].input), ticks[1..]);
      RunCons(cfg, s, ticks[0].input, BeforeStop(ticks[1..]));
    }
  }
}
