/**
 * The other two actors around the caster connection and the system they
 * form: the relay drains the correction queue one chunk per pass, the
 * keep-alive timer queues the latest position sentence, and any
 * interleaving of their steps with the connection's cycles keeps both
 * queues first-in first-out without loss.
 */
module Relay {
  import opened Rtcm
  import opened CasterSession

  /** The fixed sentence the timer queues in test mode. */
  const DummyGga: Sentence := "$GPGGA,134451.797,4250.202,N,08320.949,W,1,12,1.0,0.0,M,0.0,M,,*7D"

  /**
   * What one timer firing queues: the latest sentence if there is one (no
   * placeholder otherwise), or the fixed sentence in test mode.
   */
  function TimerEnqueues(latest: Sentence, testMode: bool): (q: seq<Sentence>)
    ensures testMode ==> q == [DummyGga]
    ensures !testMode ==> (q != [] <==> latest != [])
    ensures !testMode && q != [] ==> q == [latest]
  {
    if testMode then [DummyGga] else if |latest| > 0 then [latest] else []
  }

  /** The relay's queue and the datagrams it has broadcast. */
  datatype Relayed = Relayed(queue: seq<Frame>, broadcast: seq<Frame>)

  /**
   * One pass of the relay loop: the oldest queued chunk, if any, becomes one
   * datagram, byte for byte.
   */
  function Forward(r: Relayed): (t: Relayed)
    ensures t.broadcast + t.queue == r.broadcast + r.queue
    ensures |t.broadcast| == |r.broadcast| + (if r.queue == [] then 0 else 1)
  {
    if |r.queue| > 0 then Relayed(r.queue[1..], r.broadcast + [r.queue[0]]) else r
  }

  /** `n` passes of the relay loop with nothing queued meanwhile. */
  function ForwardTimes(r: Relayed, n: nat): (t: Relayed)
    ensures t.broadcast + t.queue == r.broadcast + r.queue
    ensures |t.broadcast| == |r.broadcast| + (if n < |r.queue| then n else |r.queue|)
    decreases n
  {
    if n == 0 then r else ForwardTimes(Forward(r), n - 1)
  }

  /** A pass of the relay loop, or another thread's stop request seen at its top. */
  datatype RelayTick = StopRelay | Pass

  /** How many passes run before the loop sees a stop request. */
  function PassesBeforeStop(ticks: seq<RelayTick>): (n: nat)
    ensures n <= |ticks|
    ensures forall i :: 0 <= i < n ==> ticks[i] == Pass
    ensures n < |ticks| ==> ticks[n] == StopRelay
  {
    if ticks == [] || ticks[0] == StopRelay then 0
    else
      var m := PassesBeforeStop(ticks[1..]);
      assert ticks[0] == Pass by { assert ticks[0].Pass?; }
      assert forall i :: 1 <= i < 1 + m ==> ticks[i] == ticks[1..][i - 1];
      assert forall i :: 0 <= i < 1 + m ==> ticks[i] == Pass by {
        forall i | 0 <= i < 1 + m ensures ticks[i] == Pass {
          if i > 0 { assert ticks[i] == ticks[1..][i - 1]; }
        }
      }
      1 + m
  }

  /**
   * The whole system: the connection with its queues, the relay's output,
   * the subscriber's latest sentence, and two histories that are not
   * program state: every chunk the connection read and every sentence the
   * timer queued.
   */
  datatype World = World(
    session: Session,
    broadcast: seq<Frame>,
    latestGga: Sentence,
    read: seq<Frame>,
    queued: seq<Sentence>)

  /** One step of one actor. */
  datatype Action =
    | SocketCycle(input: CycleInput)  // a pass of the connection's poll loop
    | RelayPass                       // a pass of the relay loop
    | GgaMessage(msg: Sentence)       // the subscriber delivers a position sentence
    | TimerFires                      // the keep-alive timer fires

  predicate ValidAction(cfg: Config, a: Action) {
    cfg.Valid() && (a.SocketCycle? ==> WellFormed(a.input))
  }

  function Step(cfg: Config, testMode: bool, w: World, a: Action): World
    requires ValidAction(cfg, a)
  {
    match a
    case SocketCycle(input) =>
      w.(session := Cycle(cfg, w.session, input), read := w.read + Received(w.session, input))
    case RelayPass =>
      var t := Forward(Relayed(w.session.rtcmQueue, w.broadcast));
      w.(session := w.session.(rtcmQueue := t.queue), broadcast := t.broadcast)
    case GgaMessage(msg) =>
      w.(latestGga := msg)
    case TimerFires =>
      var q := TimerEnqueues(w.latestGga, testMode);
      w.(session := w.session.(ggaQueue := w.session.ggaQueue + q), queued := w.queued + q)
  }

  function Steps(cfg: Config, testMode: bool, w: World, actions: seq<Action>): World
    requires forall i :: 0 <= i < |actions| ==> ValidAction(cfg, actions[i])
    decreases |actions|
  {
    if actions == [] then w
    else Step(cfg, testMode, Steps(cfg, testMode, w, actions[..|actions| - 1]), actions[|actions| - 1])
  }

  /**
   * No loss, no reordering, no change: what was broadcast followed by what
   * still waits is exactly what was read, and what was written to the caster
   * followed by what still waits is exactly what the timer queued.
   */
  predicate Channels(w: World) {
    ReadChannel(w) && WriteChannel(w)
  }

  /** Correction data: broadcast, then still queued, is what was read. */
  predicate ReadChannel(w: World) {
    w.broadcast + w.session.rtcmQueue == w.read
  }

  /** Keep-alives: written, then still queued, is what the timer queued. */
  predicate WriteChannel(w: World) {
    w.session.keepAlives + w.session.ggaQueue == w.queued
  }

  lemma CycleKeepsReadChannel(cfg: Config, w: World, input: CycleInput)
    requires cfg.Valid() && WellFormed(input) && ReadChannel(w)
    ensures ReadChannel(w.(session := Cycle(cfg, w.session, input), read := w.read + Received(w.session, input)))
  {
    var s := w.session;
    var r := Received(s, input);
    CycleQueuesRead(cfg, s, input);
    calc {
      w.broadcast + Cycle(cfg, s, input).rtcmQueue;
      w.broadcast + (s.rtcmQueue + r);
      (w.broadcast + s.rtcmQueue) + r;
    }
  }

  lemma CycleKeepsWriteChannel(cfg: Config, w: World, input: CycleInput)
    requires cfg.Valid() && WellFormed(input) && WriteChannel(w)
    ensures WriteChannel(w.(session := Cycle(cfg, w.session, input), read := w.read + Received(w.session, input)))
  {
    var s := w.session;
    var t := Cycle(cfg, s, input);
    CycleWritesHead(cfg, s, input);
    MoveToFront(s.keepAlives, Sent(s, input), t.ggaQueue, s.ggaQueue);
  }

  lemma RelayPassKeepsChannels(w: World)
    requires Channels(w)
    ensures var t := Forward(Relayed(w.session.rtcmQueue, w.broadcast));
      Channels(w.(session := w.session.(rtcmQueue := t.queue), broadcast := t.broadcast))
  {
  }

  lemma TimerKeepsChannels(w: World, q: seq<Sentence>)
    requires Channels(w)
    ensures Channels(w.(session := w.session.(ggaQueue := w.session.ggaQueue + q), queued := w.queued + q))
  {
    assert w.session.keepAlives + (w.session.ggaQueue + q) == (w.session.keepAlives + w.session.ggaQueue) + q;
  }

  lemma StepKeepsChannels(cfg: Config, testMode: bool, w: World, a: Action)
    requires ValidAction(cfg, a) && Channels(w)
    ensures Channels(Step(cfg, testMode, w, a))
  {
    match a
    case SocketCycle(input) =>
      CycleKeepsReadChannel(cfg, w, input);
      CycleKeepsWriteChannel(cfg, w, input);
    case RelayPass =>
      RelayPassKeepsChannels(w);
    case GgaMessage(msg) =>
    case TimerFires =>
      TimerKeepsChannels(w, TimerEnqueues(w.latestGga, testMode));
  }

  /** Every interleaving of the actors keeps both channels intact. */
  lemma {:induction false} StepsKeepChannels(cfg: Config, testMode: bool, w: World, actions: seq<Action>)
    requires forall i :: 0 <= i < |actions| ==> ValidAction(cfg, actions[i])
    requires Channels(w)
    ensures Channels(Steps(cfg, testMode, w, actions))
    decreases |actions|
  {
    if actions != [] {
      var before := actions[..|actions| - 1];
      StepsKeepChannels(cfg, testMode, w, before);
      StepKeepsChannels(cfg, testMode, Steps(cfg, testMode, w, before), actions[|actions| - 1]);
    }
  }

  /** The counter invariant also survives every interleaving. */
  lemma {:induction false} StepsKeepInv(cfg: Config, testMode: bool, w: World, actions: seq<Action>)
    requires forall i :: 0 <= i < |actions| ==> ValidAction(cfg, actions[i])
    requires Inv(w.session)
    ensures Inv(Steps(cfg, testMode, w, actions).session)
    decreases |actions|
  {
    if actions != [] {
      var before := actions[..|actions| - 1];
      var last := actions[|actions| - 1];
      StepsKeepInv(cfg, testMode, w, before);
      if last.SocketCycle? {
        CycleKeepsInv(cfg, Steps(cfg, testMode, w, before).session, last.input);
      }
    }
  }

  /** The system at start-up: both queues empty, nothing read, sent or queued. */
  function Initial(): (w: World)
    ensures w.session.rtcmQueue == [] && w.session.ggaQueue == []
    ensures w.broadcast == [] && w.read == [] && w.queued == []
    ensures !w.session.connected && w.session.keepAlives == []
    ensures Channels(w) && Inv(w.session)
  {
    World(Start([], []), [], [], [], [])
  }

  /**
   * Two sentences arriving before the timer fires: only the later one is
   * queued (outside test mode, when it is not empty).
   */
  lemma LatestSentenceWins(cfg: Config, w: World, first: Sentence, second: Sentence)
    requires cfg.Valid() && second != []
    ensures Steps(cfg, false, w, [GgaMessage(first), GgaMessage(second), TimerFires]).session.ggaQueue
         == w.session.ggaQueue + [second]
  {
    var actions := [GgaMessage(first), GgaMessage(second), TimerFires];
    assert actions[..2][..1] == [GgaMessage(first)] && actions[..2][..1][..0] == [];
    assert actions[..2] == [GgaMessage(first), GgaMessage(second)];
    assert [GgaMessage(first)][..0] == [];
    assert Steps(cfg, false, w, []) == w;
    assert Step(cfg, false, w, GgaMessage(first)) == w.(latestGga := first);
    var w1 := Steps(cfg, false, w, [GgaMessage(first)]);
    assert w1 == w.(latestGga := first);
    var w2 := Steps(cfg, false, w, actions[..2]);
    assert w2 == w.(latestGga := second);
  }
}
