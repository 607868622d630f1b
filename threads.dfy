/**
 * The relay's objects and the state they update in place: the two shared
 * queues, the caster connection thread, the relay thread and the ROS node's
 * position callbacks. Each method is proved to do what the functions of
 * `CasterSession` and `Relay` say.
 */
module Threads {
  import opened Wrappers
  import opened Rtcm
  import opened CasterSession
  import Handshake
  import Relay

  /** An unbounded first-in first-out queue shared between threads (`Queue.Queue`). */
  class Fifo<T> {
    var items: seq<T>

    constructor ()
      ensures items == []
    {
      items := [];
    }

    method Put(x: T)
      modifies this
      ensures items == old(items) + [x]
    {
      items := items + [x];
    }

    /** Takes the oldest item; an empty queue is a normal outcome, not an error. */
    method GetNowait() returns (r: Option<T>)
      modifies this
      ensures old(items) == [] ==> r == None && items == []
      ensures old(items) != [] ==> r == Some(old(items)[0]) && items == old(items)[1..]
    {
      if |items| == 0 {
        r := None;
      } else {
        r := Some(items[0]);
        items := items[1..];
      }
    }
  }

  /** The thread that holds the caster connection. */
  class NtripSocketThread {
    const cfg: Config
    const rtcmQueue: Fifo<Frame>
    const ggaQueue: Fifo<Sentence>
    var stopEvent: bool
    var connectedToCaster: bool
    var noRtcmDataCount: int
    var sentGga: bool
    var requests: seq<string>      // what the handshake wrote to the caster
    var keepAlives: seq<Sentence>  // what the poll loop wrote to the caster
    var log: seq<Report>           // the status line printed for each chunk

    /** The thread's state together with the two queues, as `CasterSession` describes it. */
    ghost function View(): Session
      reads this, rtcmQueue, ggaQueue
    {
      Session(connectedToCaster, noRtcmDataCount, sentGga, rtcmQueue.items, ggaQueue.items,
              requests, keepAlives, log)
    }

    constructor (cfg: Config, rtcmQueue: Fifo<Frame>, ggaQueue: Fifo<Sentence>)
      ensures this.cfg == cfg && this.rtcmQueue == rtcmQueue && this.ggaQueue == ggaQueue
      ensures View() == Start(rtcmQueue.items, ggaQueue.items) && !stopEvent
    {
      this.cfg, this.rtcmQueue, this.ggaQueue := cfg, rtcmQueue, ggaQueue;
      stopEvent, connectedToCaster, noRtcmDataCount, sentGga := false, false, 0, false;
      requests, keepAlives, log := [], [], [];
    }

    /** Another thread asks the loop to end; it looks at the request at the top of each pass. */
    method Stop()
      modifies this`stopEvent
      ensures stopEvent
    {
      stopEvent := true;
    }

    /**
     * Connects, sends the request and checks the first chunk of the answer.
     * Nothing is written when the connect itself fails.
     */
    method ConnectToNtripCaster(a: Handshake.Attempt) returns (ok: bool)
      requires cfg.Valid()
      modifies this`requests
      ensures ok == Handshake.Succeeds(a)
      ensures requests == old(requests) + (if a.ConnectFailed? then [] else [cfg.Request()])
    {
      if a.ConnectFailed? {
        return false;
      }
      requests := requests + [cfg.Request()];
      match a
      case RecvFailed =>
        ok := false;
      case Answered(response) =>
        ok := Handshake.Accepted(response);
    }

    /** A readable socket is read once; a non-empty chunk is logged, queued and resets the counter. */
    method ReadChunk(readable: bool, chunk: Frame)
      requires readable && |chunk| > 0 ==> Inspectable(chunk)
      modifies this`log, this`noRtcmDataCount, rtcmQueue
      ensures View() == Read(old(View()), readable, chunk)
    {
      if readable {
        var rtcmMsg := chunk;
        if |rtcmMsg| > 0 {
          log := log + [Inspect(rtcmMsg)];
          rtcmQueue.Put(rtcmMsg);
          noRtcmDataCount := 0;
        }
      }
    }

    /** A writable socket gets the oldest queued keep-alive, if any. */
    method SendKeepAlive(writable: bool)
      modifies this`keepAlives, this`sentGga, ggaQueue
      ensures View() == Write(old(View()), writable)
    {
      if writable {
        var ggaMsg := ggaQueue.GetNowait();
        if ggaMsg.Some? {
          keepAlives := keepAlives + [ggaMsg.value];
          sentGga := true;
        }
      }
    }

    /** The staleness check and this cycle's count. */
    method CountStaleCycle()
      modifies this`connectedToCaster, this`noRtcmDataCount
      ensures View() == EndOfCycle(old(View()))
    {
      if noRtcmDataCount > StaleLimit {
        connectedToCaster := false;
        noRtcmDataCount := 0;
      }
      if sentGga {
        noRtcmDataCount := noRtcmDataCount + 1;
      }
    }

    /** What a connected pass does after the readiness wait. */
    method ExchangeStep(poll: Poll)
      requires poll.Ready? && poll.readable && |poll.chunk| > 0 ==> Inspectable(poll.chunk)
      modifies this`connectedToCaster, this`noRtcmDataCount, this`log, this`keepAlives, this`sentGga
      modifies rtcmQueue, ggaQueue
      ensures View() == Exchange(old(View()), poll)
    {
      match poll
      case SelectFailed =>
        connectedToCaster := false;
      case Ready(readable, chunk, writable) =>
        ReadChunk(readable, chunk);
        SendKeepAlive(writable);
        CountStaleCycle();
    }

    /** One pass of the loop in `run`, after the stop check. */
    method PollCycle(input: CycleInput)
      requires cfg.Valid() && WellFormed(input)
      modifies this, rtcmQueue, ggaQueue
      ensures View() == Cycle(cfg, old(View()), input)
      ensures Inv(old(View())) ==> Inv(View())
      ensures stopEvent == old(stopEvent)
    {
      ghost var s := View();
      CycleKeepsInvIf(s, input);
      if !connectedToCaster {
        var ok := ConnectToNtripCaster(input.attempt);
        if ok {
          connectedToCaster := true;
        } else {
          return;
        }
      }
      assert View() == EnsureConnected(cfg, s, input.attempt);
      ExchangeStep(input.poll);
    }

    lemma CycleKeepsInvIf(s: Session, input: CycleInput)
      requires cfg.Valid() && WellFormed(input)
      ensures Inv(s) ==> Inv(Cycle(cfg, s, input))
    {
      if Inv(s) {
        CycleKeepsInv(cfg, s, input);
      }
    }

    /** One loop pass: a stop request is recorded, an input runs one cycle. */
    method Step(t: Tick)
      requires cfg.Valid() && !stopEvent && (t.Next? ==> WellFormed(t.input))
      modifies this, rtcmQueue, ggaQueue
      ensures t.Stop? ==> stopEvent && View() == old(View())
      ensures t.Next? ==> !stopEvent && View() == Cycle(cfg, old(View()), t.input)
    {
      match t
      case Stop =>
        Stop();
      case Next(input) =>
        PollCycle(input);
    }

    /**
     * The loop of `run`: a pass per tick until a stop request is seen at the
     * top of the loop; the cycles run are those before the first stop.
     */
    method Run(ticks: seq<Tick>)
      requires cfg.Valid() && TicksWellFormed(ticks)
      modifies this, rtcmQueue, ggaQueue
      ensures old(stopEvent) ==> View() == old(View()) && stopEvent
      ensures !old(stopEvent) ==> View() == RunTicks(cfg, old(View()), ticks)
      ensures stopEvent <==> old(stopEvent) || Tick.Stop in ticks
    {
      if stopEvent {
        return;
      }
      ghost var start := View();
      var i := 0;
      while !stopEvent && i < |ticks|
        invariant 0 <= i <= |ticks| && TicksWellFormed(ticks[i..])
        invariant stopEvent <==> Tick.Stop in ticks[..i]
        invariant stopEvent ==> View() == RunTicks(cfg, start, ticks)
        invariant !stopEvent ==> RunTicks(cfg, View(), ticks[i..]) == RunTicks(cfg, start, ticks)
      {
        RunTicksFrom(cfg, View(), ticks, i);
        Step(ticks[i]);
        assert ticks[..i + 1] == ticks[..i] + [ticks[i]];
        i := i + 1;
      }
      if !stopEvent {
        assert ticks[i..] == [] && ticks[..i] == ticks;
      }
    }
  }

  /** The thread that broadcasts queued correction data to the receiver network. */
  class ReceiverThread {
    const rtcmQueue: Fifo<Frame>
    const broadcastPort: int
    var stopEvent: bool
    var broadcast: seq<Frame>  // the datagrams sent, one per chunk

    ghost function View(): Relay.Relayed
      reads this, rtcmQueue
    {
      Relay.Relayed(rtcmQueue.items, broadcast)
    }

    constructor (rtcmQueue: Fifo<Frame>, broadcastPort: int)
      ensures this.rtcmQueue == rtcmQueue && this.broadcastPort == broadcastPort
      ensures broadcast == [] && !stopEvent
    {
      this.rtcmQueue, this.broadcastPort := rtcmQueue, broadcastPort;
      stopEvent, broadcast := false, [];
    }

    method Stop()
      modifies this`stopEvent
      ensures stopEvent
    {
      stopEvent := true;
    }

    /** One pass of the loop in `run`: forward the oldest chunk, if any, as one datagram. */
    method RelayPass()
      modifies this`broadcast, rtcmQueue
      ensures View() == Relay.Forward(old(View()))
    {
      var rtcmMsg := rtcmQueue.GetNowait();
      if rtcmMsg.Some? {
        broadcast := broadcast + [rtcmMsg.value];
      }
    }

    /** The loop of `run`, with nothing queued by others while it runs. */
    method Run(ticks: seq<Relay.RelayTick>)
      modifies this, rtcmQueue
      ensures old(stopEvent) ==> View() == old(View())
      ensures !old(stopEvent) ==> View() == Relay.ForwardTimes(old(View()), Relay.PassesBeforeStop(ticks))
      ensures broadcast + rtcmQueue.items == old(broadcast + rtcmQueue.items)
      ensures stopEvent <==> old(stopEvent) || Relay.StopRelay in ticks
    {
      var i := 0;
      ghost var passes := 0;
      while !stopEvent && i < |ticks|
        invariant 0 <= passes <= i <= |ticks|
        invariant View() == Relay.ForwardTimes(old(View()), passes)
        invariant old(stopEvent) ==> i == 0 && stopEvent
        invariant !old(stopEvent) && !stopEvent ==> passes == i && Relay.PassesBeforeStop(ticks) == i + Relay.PassesBeforeStop(ticks[i..])
        invariant !old(stopEvent) && stopEvent ==> Relay.PassesBeforeStop(ticks) == passes
        invariant stopEvent <==> old(stopEvent) || Relay.StopRelay in ticks[..i]
      {
        assert ticks[i..][0] == ticks[i] && ticks[i..][1..] == ticks[i + 1..];
        if ticks[i] == Relay.StopRelay {
          Stop();
        } else {
          RelayPass();
          ForwardTimesOneMore(old(View()), passes);
          passes := passes + 1;
        }
        assert ticks[..i + 1] == ticks[..i] + [ticks[i]];
        i := i + 1;
      }
      if !old(stopEvent) && !stopEvent {
        assert ticks[i..] == [];
      }
      if !stopEvent {
        assert ticks[..i] == ticks;
      }
    }

    lemma {:induction false} ForwardTimesOneMore(r: Relay.Relayed, n: nat)
      ensures Relay.ForwardTimes(r, n + 1) == Relay.Forward(Relay.ForwardTimes(r, n))
      decreases n
    {
      if n > 0 {
        ForwardTimesOneMore(Relay.Forward(r), n - 1);
      }
    }
  }

  /** The ROS node's side: the latest position sentence and the keep-alive timer. */
  class RosInterface {
    const ggaQueue: Fifo<Sentence>
    const testMode: bool
    var ggaMsg: Sentence

    constructor (ggaQueue: Fifo<Sentence>, testMode: bool)
      ensures this.ggaQueue == ggaQueue && this.testMode == testMode && ggaMsg == []
    {
      this.ggaQueue, this.testMode := ggaQueue, testMode;
      ggaMsg := [];
    }

    /** A position sentence arrives: it replaces the stored one, no history is kept. */
    method RecvGga(msg: Sentence)
      modifies this`ggaMsg
      ensures ggaMsg == msg
    {
      ggaMsg := msg;
    }

    /** The timer fires: queue the stored sentence if there is one, or the fixed one in test mode. */
    method GgaTimerCb()
      modifies ggaQueue
      ensures ggaQueue.items == old(ggaQueue.items) + Relay.TimerEnqueues(ggaMsg, testMode)
    {
      if testMode {
        ggaQueue.Put(Relay.DummyGga);
      } else if |ggaMsg| > 0 {
        ggaQueue.Put(ggaMsg);
      }
    }
  }
}
