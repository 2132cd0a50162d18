/**
 * The per-thread event loop of the queue-based infrastructure: the decision
 * whether the loop still has work that keeps it alive, the deadline handed
 * to the poll, the poll phase that forwards infrastructure messages from the
 * inter-thread queue to the node, and the loop itself with its fixed order
 * of emission in each iteration.
 *
 * The timeout manager, the clock and the inter-thread queue are outside this
 * model: what they report in one iteration is an input (a Tick).  Event
 * queues (ev_queue.h, not part of this model) are lists of callbacks that
 * emit runs in order and then empties; running a callback, polling and
 * handing a message to the node are recorded in a trace.
 */
module QBasedInfrastructure {
  import opened Bytes
  import opened TcpSocket

  /** Size of the array the poll phase reads inter-thread messages into. */
  const MaxMsgCnt: nat := 8

  datatype MsgType = Infrastructural | OtherMsg(tag: nat)

  datatype InterThreadMsg = InterThreadMsg(msgType: MsgType, sourceThreadID: nat, payload: seq<u8>)

  /** What the timeout manager reports: whether a refed timer is pending, and the next deadline. */
  datatype TimerView = TimerView(refed: bool, next: nat)

  /** Observable steps of the loop, in the order they happen. */
  datatype Invocation =
    | Run(ev: EventId)
    | Polled(refed: bool, nextTimeoutAt: nat)
    | OnInfrastructureMessage(sourceThreadID: nat, payload: seq<u8>)

  /**
   * What the world contributes to one iteration: the expired timers'
   * callbacks, the immediates they queue, the timer state seen by the poll
   * decision, the message array filled by the inter-thread queue and how many
   * of its slots are in use, the immediates queued while messages were
   * handled, and whether a callback cleared `running`.
   */
  datatype Tick = Tick(
    expired: seq<EventId>,
    immediatesFromTimers: seq<EventId>,
    timer: TimerView,
    thq: seq<InterThreadMsg>,
    actualFromQueue: nat,
    immediatesFromMessages: seq<EventId>,
    stop: bool)

  /** The inter-thread queue fills the 8-slot array and reports at most 8 messages. */
  predicate WellFormedTick(t: Tick)
  {
    |t.thq| == MaxMsgCnt && t.actualFromQueue <= MaxMsgCnt
  }

  /** refedTimeout: the loop has a reason to stay alive. */
  function RefedTimeout(immediates: seq<EventId>, timer: TimerView): (r: bool)
    ensures immediates != [] ==> r
    ensures immediates == [] ==> r == timer.refed
  {
    immediates != [] || timer.refed
  }

  /** nextTimeout: pending immediates make the poll return at once. */
  function NextTimeout(immediates: seq<EventId>, timer: TimerView): (r: nat)
    ensures immediates != [] ==> r == 0
    ensures immediates == [] ==> r == timer.next
  {
    if immediates == [] then timer.next else 0
  }

  function Runs(evs: seq<EventId>): (r: seq<Invocation>)
    ensures |r| == |evs|
    ensures forall i :: 0 <= i < |evs| ==> r[i] == Run(evs[i])
  {
    seq(|evs|, i requires 0 <= i < |evs| => Run(evs[i]))
  }

  /** The messages of `msgs` the node is told about: the infrastructural ones, in order. */
  function Forwarded(msgs: seq<InterThreadMsg>): (r: seq<Invocation>)
    ensures |r| <= |msgs|
    ensures forall x :: x in r ==> x.OnInfrastructureMessage?
  {
    if msgs == [] then []
    else
      var m := msgs[|msgs| - 1];
      Forwarded(msgs[..|msgs| - 1]) + (if m.msgType == Infrastructural then [OnInfrastructureMessage(m.sourceThreadID, m.payload)] else [])
  }

  /** Forwarding a batch is forwarding its parts one after the other. */
  lemma {:induction false} ForwardedAppend(a: seq<InterThreadMsg>, b: seq<InterThreadMsg>)
    ensures Forwarded(a + b) == Forwarded(a) + Forwarded(b)
    decreases |b|
  {
    if b == [] {
      assert a + b == a;
    } else {
      var b' := b[..|b| - 1];
      assert (a + b)[..|a + b| - 1] == a + b';
      ForwardedAppend(a, b');
    }
  }

  /** A message is forwarded iff it is infrastructural; payload and sender are kept. */
  lemma {:induction false} ForwardedExactly(msgs: seq<InterThreadMsg>)
    ensures |Forwarded(msgs)| == |InfrastructuralOf(msgs)|
    ensures forall i :: 0 <= i < |Forwarded(msgs)| ==>
              Forwarded(msgs)[i] == OnInfrastructureMessage(InfrastructuralOf(msgs)[i].sourceThreadID, InfrastructuralOf(msgs)[i].payload)
  {
    if msgs != [] {
      ForwardedExactly(msgs[..|msgs| - 1]);
    }
  }

  /**
   * An invocation is forwarded exactly when some infrastructural message
   * carries its source thread and payload, a description of Forwarded that
   * does not follow its recursion.
   */
  lemma {:induction false} ForwardedMembers(msgs: seq<InterThreadMsg>, x: Invocation)
    ensures x in Forwarded(msgs) <==>
            exists i :: 0 <= i < |msgs| && msgs[i].msgType == Infrastructural &&
                        x == OnInfrastructureMessage(msgs[i].sourceThreadID, msgs[i].payload)
    decreases |msgs|
  {
    if msgs != [] {
      var init := msgs[..|msgs| - 1];
      ForwardedMembers(init, x);
      assert forall i :: 0 <= i < |init| ==> init[i] == msgs[i];
    }
  }

  /** The infrastructural messages of `msgs`, in order. */
  function InfrastructuralOf(msgs: seq<InterThreadMsg>): (r: seq<InterThreadMsg>)
    ensures forall m :: m in r ==> m in msgs && m.msgType == Infrastructural
  {
    if msgs == [] then []
    else
      var m := msgs[|msgs| - 1];
      InfrastructuralOf(msgs[..|msgs| - 1]) + (if m.msgType == Infrastructural then [m] else [])
  }

  /** Everything one iteration does, given the immediates pending when it starts. */
  function IterationTrace(pending: seq<EventId>, t: Tick): seq<Invocation>
    requires WellFormedTick(t)
  {
    var atPoll := pending + t.immediatesFromTimers;
    Runs(t.expired)
    + [Polled(RefedTimeout(atPoll, t.timer), NextTimeout(atPoll, t.timer))]
    + Forwarded(t.thq[..t.actualFromQueue])
    + Runs(atPoll + t.immediatesFromMessages)
  }

  /** Everything the loop does over the ticks, while `running` holds. */
  function LoopTrace(pending: seq<EventId>, ticks: seq<Tick>, running: bool): seq<Invocation>
    requires forall t :: t in ticks ==> WellFormedTick(t)
    decreases |ticks|
  {
    if !running || ticks == [] then []
    else IterationTrace(pending, ticks[0]) + LoopTrace([], ticks[1..], !ticks[0].stop)
  }

  /** How many iterations run: up to and including the first that clears `running`. */
  function Iterations(ticks: seq<Tick>, running: bool): (r: nat)
    ensures r <= |ticks|
    ensures running && ticks != [] ==> r >= 1
  {
    if !running || ticks == [] then 0 else 1 + Iterations(ticks[1..], !ticks[0].stop)
  }

  function PollCount(tr: seq<Invocation>): nat
  {
    if tr == [] then 0 else (if tr[0].Polled? then 1 else 0) + PollCount(tr[1..])
  }

  lemma {:induction false} PollCountAppend(a: seq<Invocation>, b: seq<Invocation>)
    ensures PollCount(a + b) == PollCount(a) + PollCount(b)
  {
    if a == [] {
      assert a + b == b;
    } else {
      assert (a + b)[1..] == a[1..] + b;
      PollCountAppend(a[1..], b);
    }
  }

  lemma {:induction false} PollCountRuns(evs: seq<EventId>)
    ensures PollCount(Runs(evs)) == 0
  {
    if evs != [] {
      assert Runs(evs)[1..] == Runs(evs[1..]);
      PollCountRuns(evs[1..]);
    }
  }

  lemma {:induction false} PollCountForwarded(msgs: seq<InterThreadMsg>)
    ensures PollCount(Forwarded(msgs)) == 0
  {
    var f := Forwarded(msgs);
    if f != [] {
      assert f[0] in f;
      PollCountNone(f);
    }
  }

  lemma {:induction false} PollCountNone(tr: seq<Invocation>)
    requires forall x :: x in tr ==> !x.Polled?
    ensures PollCount(tr) == 0
  {
    if tr != [] {
      assert tr[0] in tr;
      PollCountNone(tr[1..]);
    }
  }

  /** Each iteration polls exactly once. */
  lemma {:induction false} OnePollPerIteration(pending: seq<EventId>, ticks: seq<Tick>, running: bool)
    requires forall t :: t in ticks ==> WellFormedTick(t)
    ensures PollCount(LoopTrace(pending, ticks, running)) == Iterations(ticks, running)
    decreases |ticks|
  {
    if running && ticks != [] {
      var t := ticks[0];
      assert t in ticks;
      var atPoll := pending + t.immediatesFromTimers;
      var p := [Polled(RefedTimeout(atPoll, t.timer), NextTimeout(atPoll, t.timer))];
      PollCountRuns(t.expired);
      PollCountForwarded(t.thq[..t.actualFromQueue]);
      PollCountRuns(atPoll + t.immediatesFromMessages);
      assert PollCount(p) == 1 by {
        assert p[1..] == [];
      }
      PollCountAppend(Runs(t.expired), p);
      PollCountAppend(Runs(t.expired) + p, Forwarded(t.thq[..t.actualFromQueue]));
      PollCountAppend(Runs(t.expired) + p + Forwarded(t.thq[..t.actualFromQueue]), Runs(atPoll + t.immediatesFromMessages));
      PollCountAppend(IterationTrace(pending, t), LoopTrace([], ticks[1..], !t.stop));
      OnePollPerIteration([], ticks[1..], !t.stop);
    }
  }

  /** The loop from tick i on: iteration i, then the rest from i + 1 with `running` as that iteration left it. */
  lemma LoopStep(before: seq<Invocation>, after: seq<Invocation>, pending: seq<EventId>, ticks: seq<Tick>, i: nat)
    requires forall t :: t in ticks ==> WellFormedTick(t)
    requires i < |ticks| && WellFormedTick(ticks[i])
    requires after == before + IterationTrace(pending, ticks[i])
    ensures before + LoopTrace(pending, ticks[i..], true) == after + LoopTrace([], ticks[i + 1..], !ticks[i].stop)
    ensures Iterations(ticks[i..], true) == 1 + Iterations(ticks[i + 1..], !ticks[i].stop)
  {
    assert ticks[i..][0] == ticks[i] && ticks[i..][1..] == ticks[i + 1..];
  }

  /** One iteration's trace, assembled from what each of its steps appended. */
  lemma IterationTraceOfSteps(before: seq<Invocation>, afterTimers: seq<Invocation>, afterPoll: seq<Invocation>,
                              after: seq<Invocation>, pending: seq<EventId>, t: Tick)
    requires WellFormedTick(t)
    requires afterTimers == before + Runs(t.expired)
    requires afterPoll == afterTimers + [Polled(RefedTimeout(pending + t.immediatesFromTimers, t.timer),
                                                NextTimeout(pending + t.immediatesFromTimers, t.timer))]
                          + Forwarded(t.thq[..t.actualFromQueue]) + []
    requires after == afterPoll + Runs(pending + t.immediatesFromTimers + t.immediatesFromMessages) + []
    ensures after == before + IterationTrace(pending, t)
  {
  }

  class Infrastructure {
    var running: bool
    var nextTimeoutAt: nat
    /** Immediates queued and not yet emitted. */
    var inmediateQueue: seq<EventId>
    /** Callbacks run, polls made and messages handed to the node, in order. */
    var trace: seq<Invocation>

    constructor ()
      ensures running && nextTimeoutAt == 0 && inmediateQueue == [] && trace == []
    {
      running := true;
      nextTimeoutAt := 0;
      inmediateQueue := [];
      trace := [];
    }

    /** emitInmediates: runs the queued immediates in order and empties the queue. */
    method EmitInmediates()
      modifies this`inmediateQueue, this`trace
      ensures inmediateQueue == []
      ensures trace == old(trace) + Runs(old(inmediateQueue))
    {
      trace := trace + Runs(inmediateQueue);
      inmediateQueue := [];
    }

    /**
     * pollPhase2: the poll, then each of the first actualFromQueue messages
     * handed to the node if it is infrastructural; always reports refed.
     */
    method PollPhase2(refed: bool, nextAt: nat, thq: seq<InterThreadMsg>, actualFromQueue: nat) returns (stillRefed: bool)
      requires |thq| == MaxMsgCnt && actualFromQueue <= MaxMsgCnt
      modifies this`trace
      ensures stillRefed
      ensures trace == old(trace) + [Polled(refed, nextAt)] + Forwarded(thq[..actualFromQueue])
    {
      trace := trace + [Polled(refed, nextAt)];
      for i := 0 to actualFromQueue
        invariant trace == old(trace) + [Polled(refed, nextAt)] + Forwarded(thq[..i])
      {
        assert thq[..i + 1] == thq[..i] + [thq[i]];
        ForwardedAppend(thq[..i], [thq[i]]);
        assert [thq[i]][..0] == [];
        if thq[i].msgType == Infrastructural {
          trace := trace + [OnInfrastructureMessage(thq[i].sourceThreadID, thq[i].payload)];
        }
      }
      return true;
    }

    /**
     * One pass of the loop body: the local queue is filled with the expired
     * timers and emitted, the poll phase runs, the local queue is emitted,
     * the immediates are emitted, and the local queue is emitted again (it
     * is empty by then).
     */
    method RunIteration(t: Tick)
      requires WellFormedTick(t)
      modifies this`inmediateQueue, this`trace
      ensures trace == old(trace) + IterationTrace(old(inmediateQueue), t)
      ensures inmediateQueue == []
    {
      ghost var before := trace;
      var pending := inmediateQueue;
      var queue := t.expired;
      trace := trace + Runs(queue);
      queue := [];
      ghost var afterTimers := trace;
      inmediateQueue := inmediateQueue + t.immediatesFromTimers;
      var refed := PollPhase2(RefedTimeout(inmediateQueue, t.timer), NextTimeout(inmediateQueue, t.timer),
                              t.thq, t.actualFromQueue);
      if !refed {
        assert false;
      }
      assert Runs(queue) == [];
      trace := trace + Runs(queue);
      ghost var afterPoll := trace;
      inmediateQueue := inmediateQueue + t.immediatesFromMessages;
      EmitInmediates();
      trace := trace + Runs(queue);
      IterationTraceOfSteps(before, afterTimers, afterPoll, trace, pending, t);
    }

    /**
     * runStandardLoop over the ticks the world supplies, one iteration per
     * tick while `running` holds.  The poll phase always reports refed, so
     * the loop ends only when a callback clears `running` (or the ticks run
     * out).
     */
    method RunStandardLoop(ticks: seq<Tick>) returns (iterations: nat)
      requires forall t :: t in ticks ==> WellFormedTick(t)
      modifies this`running, this`inmediateQueue, this`trace
      ensures iterations == Iterations(ticks, old(running))
      ensures trace == old(trace) + LoopTrace(old(inmediateQueue), ticks, old(running))
      ensures running ==> iterations == |ticks|
      ensures iterations > 0 ==> inmediateQueue == []
    {
      ghost var total := trace + LoopTrace(inmediateQueue, ticks, running);
      ghost var count := Iterations(ticks, running);
      iterations := 0;
      while running && iterations < |ticks|
        invariant iterations <= |ticks|
        invariant total == trace + LoopTrace(inmediateQueue, ticks[iterations..], running)
        invariant count == iterations + Iterations(ticks[iterations..], running)
        invariant iterations > 0 ==> inmediateQueue == []
        decreases |ticks| - iterations
      {
        var t := ticks[iterations];
        assert t in ticks;
        ghost var before := trace;
        ghost var pending := inmediateQueue;
        RunIteration(t);
        LoopStep(before, trace, pending, ticks, iterations);
        if t.stop {
          running := false;
        }
        iterations := iterations + 1;
      }
      assert ticks[iterations..] == [] || !running;
    }
  }
}
