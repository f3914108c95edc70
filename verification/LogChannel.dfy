/** The logger: producers, the consumer goroutine and Close, interleaved step by step over a bounded channel. */
module LogChannel {
  import opened Wrappers

  datatype Msg = Msg(skip: int, level: int, text: string)

  type Output = string

  /** The outputs are installed before the first message; level is the logger's own threshold. */
  datatype Config = Config(capacity: nat, outputs: set<Output>, level: int)

  datatype Consumer = Waiting | Delivering(m: Msg, left: set<Output>) | Stopped

  /** Close first offers quit, then drains what it finds in the channel, then destroys the outputs. */
  datatype Closer =
    | NotClosing | Offering | Looking | Draining(m: Msg, left: set<Output>) | Destroying(left: set<Output>) | Closed

  datatype State = State(
    queue: seq<Msg>, consumer: Consumer, closer: Closer,
    got: map<Output, seq<Msg>>, destroyed: set<Output>, sent: seq<Msg>)

  datatype Action =
    | Send(m: Msg)             // a producer puts a message into the buffer
    | Handoff(m: Msg)          // a producer hands a message to the waiting consumer, as on an unbuffered channel
    | Receive | Deliver(o: Output) | Delivered
    | OfferQuit | TakeQuit | Take | Drain(o: Output) | Drained | FoundEmpty | Destroy(o: Output) | Finish

  function Start(c: Config): State {
    State([], Waiting, NotClosing, map o | o in c.outputs :: [], {}, [])
  }

  /** The state after a, or None when a cannot happen now. */
  function Step(c: Config, s: State, a: Action): Option<State> {
    match a
    case Send(m) =>
      if c.level > m.level then Some(s)
      else if |s.queue| < c.capacity then Some(s.(queue := s.queue + [m], sent := s.sent + [m]))
      else None
    case Handoff(m) =>
      if c.level > m.level then Some(s)
      else if s.queue == [] && s.consumer == Waiting
      then Some(s.(consumer := Delivering(m, c.outputs), sent := s.sent + [m]))
      else None
    case Receive =>
      if s.consumer == Waiting && s.queue != []
      then Some(s.(consumer := Delivering(s.queue[0], c.outputs), queue := s.queue[1..]))
      else None
    case Deliver(o) =>
      if s.consumer.Delivering? && o in s.consumer.left && o in s.got
      then Some(s.(got := s.got[o := s.got[o] + [s.consumer.m]],
                   consumer := Delivering(s.consumer.m, s.consumer.left - {o})))
      else None
    case Delivered =>
      if s.consumer.Delivering? && s.consumer.left == {} then Some(s.(consumer := Waiting)) else None
    case OfferQuit =>
      if s.closer == NotClosing then Some(s.(closer := Offering)) else None
    case TakeQuit =>
      if s.closer == Offering && s.consumer == Waiting
      then Some(s.(consumer := Stopped, closer := Looking))
      else None
    case Take =>
      if s.closer == Looking && s.queue != []
      then Some(s.(closer := Draining(s.queue[0], c.outputs), queue := s.queue[1..]))
      else None
    case Drain(o) =>
      if s.closer.Draining? && o in s.closer.left && o in s.got
      then Some(s.(got := s.got[o := s.got[o] + [s.closer.m]], closer := Draining(s.closer.m, s.closer.left - {o})))
      else None
    case Drained =>
      if s.closer.Draining? && s.closer.left == {} then Some(s.(closer := Looking)) else None
    case FoundEmpty =>
      if s.closer == Looking && s.queue == [] then Some(s.(closer := Destroying(c.outputs))) else None
    case Destroy(o) =>
      if s.closer.Destroying? && o in s.closer.left
      then Some(s.(destroyed := s.destroyed + {o}, closer := Destroying(s.closer.left - {o})))
      else None
    case Finish =>
      if s.closer.Destroying? && s.closer.left == {} then Some(s.(closer := Closed)) else None
  }

  /** The state after a run; a run that asks for an impossible step has none. */
  function Run(c: Config, s: State, run: seq<Action>): Option<State>
    decreases |run|
  {
    if run == [] then Some(s)
    else
      var t := Step(c, s, run[0]);
      if t.None? then None else Run(c, t.value, run[1..])
  }

  /** The message that is being written to the outputs, as far as output o has not got it yet. */
  function InFlight(s: State, o: Output): seq<Msg> {
    if s.consumer.Delivering? && o in s.consumer.left then [s.consumer.m]
    else if s.closer.Draining? && o in s.closer.left then [s.closer.m]
    else []
  }

  /** At most one goroutine receives, and it is the consumer until it has taken quit. */
  predicate OneReceiver(s: State) {
    if s.closer.NotClosing? || s.closer.Offering? then !s.consumer.Stopped? else s.consumer.Stopped?
  }

  predicate Left(s: State, c: Config) {
    match s.closer
    case Destroying(left) => s.destroyed + left == c.outputs
    case Closed => s.destroyed == c.outputs
    case _ => s.destroyed == {}
  }

  /** What o has got, what is on its way to o and what is queued are the messages sent, in order. */
  ghost predicate Accounted(s: State, o: Output) {
    o in s.got && s.got[o] + InFlight(s, o) + s.queue == s.sent
  }

  ghost predicate Shape(c: Config, s: State) {
    |s.queue| <= c.capacity && s.got.Keys == c.outputs && OneReceiver(s) && Left(s, c)
    && (s.consumer.Delivering? ==> s.consumer.left <= c.outputs)
    && (s.closer.Draining? ==> s.closer.left <= c.outputs)
  }

  ghost predicate Inv(c: Config, s: State) {
    Shape(c, s) && forall o :: o in c.outputs ==> Accounted(s, o)
  }

  lemma StartKeepsInv(c: Config)
    ensures Inv(c, Start(c))
  {
  }

  lemma StepKeepsShape(c: Config, s: State, a: Action)
    requires Shape(c, s) && Step(c, s, a).Some?
    ensures Shape(c, Step(c, s, a).value)
  {
  }

  lemma Rejoin(s: seq<Msg>, f: seq<Msg>, q: seq<Msg>, m: Msg)
    ensures s + f + (q + [m]) == s + f + q + [m]
    ensures s + [m] + q == s + [] + ([m] + q) == (s + [m]) + [] + q
  {
  }

  lemma StepAccounts(c: Config, s: State, a: Action, o: Output)
    requires Shape(c, s) && o in c.outputs && Accounted(s, o) && Step(c, s, a).Some?
    ensures Accounted(Step(c, s, a).value, o)
  {
    match a
    case Send(m) =>
      Rejoin(s.got[o], InFlight(s, o), s.queue, m);
    case Receive =>
      assert s.queue == [s.queue[0]] + s.queue[1..];
      Rejoin(s.got[o], [], s.queue[1..], s.queue[0]);
    case Take =>
      assert s.queue == [s.queue[0]] + s.queue[1..];
      Rejoin(s.got[o], [], s.queue[1..], s.queue[0]);
    case Deliver(x) =>
      Rejoin(s.got[o], [], s.queue, s.consumer.m);
    case Drain(x) =>
      Rejoin(s.got[o], [], s.queue, s.closer.m);
    case _ =>
  }

  lemma StepKeepsInv(c: Config, s: State, a: Action)
    requires Inv(c, s) && Step(c, s, a).Some?
    ensures Inv(c, Step(c, s, a).value)
  {
    StepKeepsShape(c, s, a);
    forall o | o in c.outputs
      ensures Accounted(Step(c, s, a).value, o)
    {
      StepAccounts(c, s, a, o);
    }
  }

  // Safety over every interleaving: what an output has got, what is on its way and what is queued are
  // together exactly the messages sent, in order.
  lemma {:induction false} RunKeepsInv(c: Config, s: State, run: seq<Action>)
    requires Inv(c, s) && Run(c, s, run).Some?
    ensures Inv(c, Run(c, s, run).value)
    decreases |run|
  {
    if run != [] {
      StepKeepsInv(c, s, run[0]);
      RunKeepsInv(c, Step(c, s, run[0]).value, run[1..]);
    }
  }

  predicate IsProducer(a: Action) {
    a.Send? || a.Handoff?
  }

  /** The message that a producer brings with this step, if it passes the logger's threshold. */
  function AcceptedOf(c: Config, a: Action): seq<Msg> {
    if IsProducer(a) && c.level <= a.m.level then [a.m] else []
  }

  function Accepted(c: Config, run: seq<Action>): seq<Msg> {
    if run == [] then [] else AcceptedOf(c, run[0]) + Accepted(c, run[1..])
  }

  lemma StepSends(c: Config, s: State, a: Action)
    requires Step(c, s, a).Some?
    ensures Step(c, s, a).value.sent == s.sent + AcceptedOf(c, a)
  {
  }

  lemma Assoc(a: seq<Msg>, b: seq<Msg>, c: seq<Msg>)
    ensures (a + b) + c == a + (b + c)
  {
  }

  // What counts as sent is what the producers brought: over every run, every message at or above the
  // threshold, in order.
  lemma {:induction false} SentIsAccepted(c: Config, s: State, run: seq<Action>)
    requires Run(c, s, run).Some?
    ensures Run(c, s, run).value.sent == s.sent + Accepted(c, run)
    decreases |run|
  {
    if run == [] {
      assert s.sent + [] == s.sent;
    } else {
      StepSends(c, s, run[0]);
      SentIsAccepted(c, Step(c, s, run[0]).value, run[1..]);
      Assoc(s.sent, AcceptedOf(c, run[0]), Accepted(c, run[1..]));
    }
  }

  // No output is written to while or after outputs are destroyed, and the quit handshake finds no
  // message on its way.
  lemma WritesBeforeDestroy(c: Config, s: State, a: Action)
    requires Inv(c, s) && Step(c, s, a).Some?
    ensures a.Deliver? || a.Drain? ==> s.destroyed == {}
    ensures a == TakeQuit ==> forall o :: o in c.outputs ==> s.got[o] + s.queue == s.sent
  {
    if a == TakeQuit {
      forall o | o in c.outputs
        ensures s.got[o] + s.queue == s.sent
      {
        assert Accounted(s, o);
        assert s.got[o] + [] == s.got[o];
      }
    }
  }

  /** No producer takes a step. */
  ghost predicate Quiet(run: seq<Action>) {
    forall i :: 0 <= i < |run| ==> !IsProducer(run[i])
  }

  ghost function Times(n: nat, k: nat): nat {
    if n == 0 then 0 else k + Times(n - 1, k)
  }

  /** How many steps are left at most while the producers are quiet. */
  ghost function StepsLeft(c: Config, s: State): nat {
    Times(|s.queue|, |c.outputs| + 2) + ConsumerSteps(s.consumer) + CloserSteps(|c.outputs|, s.closer)
  }

  ghost function ConsumerSteps(consumer: Consumer): nat {
    if consumer.Delivering? then |consumer.left| + 1 else 0
  }

  ghost function CloserSteps(outputs: nat, closer: Closer): nat {
    match closer
    case NotClosing => outputs + 5
    case Offering => outputs + 4
    case Looking => outputs + 3
    case Draining(_, left) => outputs + 4 + |left|
    case Destroying(left) => |left| + 1
    case Closed => 0
  }

  lemma QuietStepsCount(c: Config, s: State, a: Action)
    requires Step(c, s, a).Some? && !IsProducer(a)
    ensures StepsLeft(c, Step(c, s, a).value) < StepsLeft(c, s)
  {
    if a == Receive || a == Take {
      OneLess(|s.queue|, |c.outputs| + 2);
    } else if a.Deliver? {
      SmallerSet(s.consumer.left, a.o);
    } else if a.Drain? || a.Destroy? {
      SmallerSet(s.closer.left, a.o);
    }
    StepsDrop(c, s, a, Step(c, s, a).value);
  }

  lemma StepsDrop(c: Config, s: State, a: Action, t: State)
    requires Step(c, s, a) == Some(t) && !IsProducer(a)
    requires a == Receive || a == Take ==>
               Times(|s.queue|, |c.outputs| + 2) == |c.outputs| + 2 + Times(|s.queue| - 1, |c.outputs| + 2)
    requires a.Deliver? ==> |s.consumer.left - {a.o}| == |s.consumer.left| - 1
    requires a.Drain? || a.Destroy? ==> |s.closer.left - {a.o}| == |s.closer.left| - 1
    ensures StepsLeft(c, t) < StepsLeft(c, s)
  {
    var k := |c.outputs| + 2;
    if a == Receive || a == Take {
      assert |t.queue| == |s.queue| - 1;
      assert ConsumerSteps(t.consumer) + CloserSteps(|c.outputs|, t.closer)
             < k + ConsumerSteps(s.consumer) + CloserSteps(|c.outputs|, s.closer);
    } else {
      assert t.queue == s.queue;
      assert ConsumerSteps(t.consumer) + CloserSteps(|c.outputs|, t.closer)
             < ConsumerSteps(s.consumer) + CloserSteps(|c.outputs|, s.closer);
    }
  }

  lemma OneLess(n: nat, k: nat)
    requires n > 0
    ensures Times(n, k) == k + Times(n - 1, k)
  {
  }

  lemma SmallerSet(left: set<Output>, o: Output)
    requires o in left
    ensures |left - {o}| == |left| - 1
  {
  }

  lemma {:induction false} QuietRunsEnd(c: Config, s: State, run: seq<Action>)
    requires Inv(c, s) && Quiet(run) && Run(c, s, run).Some?
    ensures |run| + StepsLeft(c, Run(c, s, run).value) <= StepsLeft(c, s)
    decreases |run|
  {
    if run != [] {
      QuietStepsCount(c, s, run[0]);
      StepKeepsInv(c, s, run[0]);
      QuietRunsEnd(c, Step(c, s, run[0]).value, run[1..]);
    }
  }

  lemma NextQuietStep(c: Config, s: State) returns (a: Action)
    requires Inv(c, s) && s.closer != NotClosing && s.closer != Closed
    ensures !IsProducer(a) && Step(c, s, a).Some?
  {
    match s.closer
    case Offering =>
      if s.consumer.Waiting? {
        a := TakeQuit;
      } else if s.consumer.left == {} {
        a := Delivered;
      } else {
        var o :| o in s.consumer.left;
        a := Deliver(o);
      }
    case Looking =>
      a := if s.queue == [] then FoundEmpty else Take;
    case Draining(m, left) =>
      if left == {} {
        a := Drained;
      } else {
        var o :| o in left;
        a := Drain(o);
      }
    case Destroying(left) =>
      if left == {} {
        a := Finish;
      } else {
        var o :| o in left;
        a := Destroy(o);
      }
  }

  /** Close has taken or is offering quit and has not yet begun to destroy outputs. */
  predicate Flushing(s: State) {
    s.closer.Offering? || s.closer.Looking? || s.closer.Draining?
  }

  /** Closed, with everything sent delivered once to every output. */
  ghost predicate AllDelivered(c: Config, t: State, sent: seq<Msg>) {
    t.closer == Closed && t.destroyed == c.outputs && t.sent == sent
    && forall o :: o in c.outputs ==> o in t.got && t.got[o] == sent
  }

  /** Nothing can happen unless a producer makes it. */
  ghost predicate Stuck(c: Config, s: State) {
    forall a :: !IsProducer(a) ==> Step(c, s, a).None?
  }

  /** Close is on its way with the given messages sent, and destroys outputs only when none is queued. */
  predicate OnItsWay(s: State, sent: seq<Msg>) {
    s.sent == sent && s.closer != NotClosing && (Flushing(s) || s.queue == [])
  }

  lemma QuietStepOnItsWay(c: Config, s: State, a: Action, sent: seq<Msg>)
    requires OnItsWay(s, sent) && !IsProducer(a) && Step(c, s, a).Some?
    ensures OnItsWay(Step(c, s, a).value, sent)
  {
  }

  lemma {:induction false} QuietRunOnItsWay(c: Config, s: State, run: seq<Action>, sent: seq<Msg>)
    requires OnItsWay(s, sent) && Quiet(run) && Run(c, s, run).Some?
    ensures OnItsWay(Run(c, s, run).value, sent)
    decreases |run|
  {
    if run != [] {
      QuietStepOnItsWay(c, s, run[0], sent);
      QuietRunOnItsWay(c, Step(c, s, run[0]).value, run[1..], sent);
    }
  }

  lemma EndIsDelivered(c: Config, t: State, sent: seq<Msg>)
    requires Inv(c, t) && OnItsWay(t, sent) && Stuck(c, t)
    ensures AllDelivered(c, t, sent)
  {
    if t.closer != Closed {
      var a := NextQuietStep(c, t);
      assert false;
    }
    forall o | o in c.outputs
      ensures t.got[o] == sent
    {
      assert Accounted(t, o);
    }
  }

  // Whatever the order of the steps, once Close is called and the producers are quiet, no run is longer
  // than StepsLeft, and a run that cannot go on has delivered every message once to every output,
  // destroyed all outputs and returned from Close.
  lemma CloseTerminates(c: Config, s: State, run: seq<Action>)
    requires Inv(c, s) && Flushing(s) && Quiet(run) && Run(c, s, run).Some?
    ensures |run| <= StepsLeft(c, s)
    ensures Stuck(c, Run(c, s, run).value) ==> AllDelivered(c, Run(c, s, run).value, s.sent)
  {
    QuietRunsEnd(c, s, run);
    RunKeepsInv(c, s, run);
    QuietRunOnItsWay(c, s, run, s.sent);
    if Stuck(c, Run(c, s, run).value) {
      EndIsDelivered(c, Run(c, s, run).value, s.sent);
    }
  }

  /** Nothing can happen unless a producer sends or Close is called. */
  ghost predicate Idle(c: Config, s: State) {
    forall a :: !IsProducer(a) && a != OfferQuit ==> Step(c, s, a).None?
  }

  // Before Close the consumer keeps up by itself: when it has nothing more to do, every message sent has
  // been delivered once to every output, and the channel is empty.
  lemma IdleIsDelivered(c: Config, s: State)
    requires Inv(c, s) && s.closer == NotClosing
    ensures Idle(c, s) <==> s.consumer == Waiting && s.queue == []
    ensures Idle(c, s) ==> forall o :: o in c.outputs ==> o in s.got && s.got[o] == s.sent
  {
    if s.consumer.Delivering? {
      if s.consumer.left == {} {
        assert Step(c, s, Delivered).Some?;
      } else {
        var o :| o in s.consumer.left;
        assert Step(c, s, Deliver(o)).Some?;
      }
    } else if s.queue != [] {
      assert Step(c, s, Receive).Some?;
    } else {
      forall o | o in c.outputs
        ensures o in s.got && s.got[o] == s.sent
      {
        assert Accounted(s, o);
      }
    }
  }

  lemma QuietStepExists(c: Config, s: State) returns (a: Action, t: State)
    requires Inv(c, s) && !Stuck(c, s)
    ensures !IsProducer(a) && Step(c, s, a) == Some(t) && Inv(c, t) && StepsLeft(c, t) < StepsLeft(c, s)
  {
    a :| !IsProducer(a) && Step(c, s, a).Some?;
    t := Step(c, s, a).value;
    QuietStepsCount(c, s, a);
    StepKeepsInv(c, s, a);
  }

  lemma Prepend(c: Config, s: State, a: Action, t: State, rest: seq<Action>) returns (run: seq<Action>)
    requires !IsProducer(a) && Step(c, s, a) == Some(t) && Quiet(rest)
    ensures Quiet(run) && Run(c, s, run) == Run(c, t, rest)
  {
    run := [a] + rest;
    assert run[1..] == rest;
  }

  // Every quiet run can go on until it is stuck, so the end described above is always reached.
  lemma {:induction false} QuietRunGoesOn(c: Config, s: State) returns (run: seq<Action>)
    requires Inv(c, s)
    ensures Quiet(run) && Run(c, s, run).Some? && Stuck(c, Run(c, s, run).value)
    decreases StepsLeft(c, s)
  {
    if Stuck(c, s) {
      run := [];
    } else {
      var a, t := QuietStepExists(c, s);
      var rest := QuietRunGoesOn(c, t);
      run := Prepend(c, s, a, t, rest);
    }
  }

  // Sending needs a free place in the channel and nothing else, handing over a waiting consumer and an
  // empty channel; a message below the threshold is dropped at once, always.
  lemma ProducerExact(c: Config, s: State, m: Msg)
    ensures m.level < c.level ==> Step(c, s, Send(m)) == Some(s) == Step(c, s, Handoff(m))
    ensures c.level <= m.level ==> (Step(c, s, Send(m)).Some? <==> |s.queue| < c.capacity)
    ensures c.level <= m.level && Step(c, s, Send(m)).Some?
            ==> Step(c, s, Send(m)).value == s.(queue := s.queue + [m], sent := s.sent + [m])
    ensures c.level <= m.level ==> (Step(c, s, Handoff(m)).Some? <==> s.queue == [] && s.consumer == Waiting)
    ensures c.level <= m.level && Step(c, s, Handoff(m)).Some?
            ==> Step(c, s, Handoff(m)).value == s.(consumer := Delivering(m, c.outputs), sent := s.sent + [m])
  {
  }

  // Close can be called once, at any time; the waiting consumer may take quit whatever is still queued.
  lemma QuitExact(c: Config, s: State)
    ensures Step(c, s, OfferQuit) == if s.closer == NotClosing then Some(s.(closer := Offering)) else None
    ensures Step(c, s, TakeQuit) == if s.closer == Offering && s.consumer == Waiting
                                    then Some(s.(consumer := Stopped, closer := Looking)) else None
  {
  }

  lemma LateStep(c: Config, s: State, a: Action)
    requires Inv(c, s) && (s.closer.Destroying? || s.closer.Closed?) && Step(c, s, a).Some?
    ensures var t := Step(c, s, a).value;
            (t.closer.Destroying? || t.closer.Closed?)
            && t.queue == s.queue + AcceptedOf(c, a) && t.got == s.got
  {
  }

  lemma {:induction false} LateSendsStay(c: Config, s: State, run: seq<Action>)
    requires Inv(c, s) && (s.closer.Destroying? || s.closer.Closed?) && Run(c, s, run).Some?
    ensures Run(c, s, run).value.queue == s.queue + Accepted(c, run) && Run(c, s, run).value.got == s.got
    decreases |run|
  {
    if run == [] {
      assert s.queue + [] == s.queue;
    } else {
      LateStep(c, s, run[0]);
      StepKeepsInv(c, s, run[0]);
      LateSendsStay(c, Step(c, s, run[0]).value, run[1..]);
      Assoc(s.queue, AcceptedOf(c, run[0]), Accepted(c, run[1..]));
    }
  }

  // Close looks once more and finds the channel empty. From there to its end, everything ever sent has
  // been delivered to an output if and only if no producer got a message in meanwhile.
  lemma DeliveredExact(c: Config, s: State, run: seq<Action>, o: Output)
    requires Inv(c, s) && s.closer == Looking && o in c.outputs
    requires Run(c, s, [FoundEmpty] + run).Some?
    ensures var t := Run(c, s, [FoundEmpty] + run).value;
            o in t.got && (t.got[o] == t.sent <==> Accepted(c, run) == [])
  {
    assert ([FoundEmpty] + run)[1..] == run;
    StepKeepsInv(c, s, FoundEmpty);
    var t := Step(c, s, FoundEmpty).value;
    LateSendsStay(c, t, run);
    SentIsAccepted(c, t, run);
    assert Accounted(t, o);
    assert t.got[o] + [] + [] == t.got[o];
    assert |t.sent + Accepted(c, run)| == |t.sent| + |Accepted(c, run)|;
  }
}
