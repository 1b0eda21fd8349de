/**
 The concurrent message loop of src/concurrent.cpp as interleaved atomic steps: worker
 threads enqueue a reply and then write a wake byte; one loop drains the wake pipe and
 then the queue.  Every lock-protected region and every system call is one step.
 */
module Concurrent {
  import opened Bytes
  import opened Messages

  /** Bytes the wake pipe holds before a non-blocking write is refused. */
  const PIPE_CAPACITY := 65536
  /** Bytes taken by one read of drain_wake_pipe. */
  const DRAIN_CHUNK := 64

  /** response_envelope: data on success, the message on failure, never both. */
  function ResponseEnvelope(actionId: string, result: ActionResult): Envelope {
    match result
    case Success(data) => ActionResponse(actionId, ActionOk, data, "")
    case Failure(error) => ActionResponse(actionId, ActionError, "", error)
  }

  function ErrorEnvelope(actionId: string, message: string): Envelope {
    ResponseEnvelope(actionId, Failure(message))
  }

  /**
   A reply says whose it is and determines the result: the data and nothing else on success, the
   message and nothing else on failure.
   */
  lemma ReplyDeterminesResult(actionId: string, result: ActionResult)
    ensures var e := ResponseEnvelope(actionId, result);
      && e.ActionResponse? && e.actionId == actionId
      && (e.status == ActionOk <==> result.Success?) && (e.status == ActionError <==> result.Failure?)
      && result == (if e.status == ActionOk then Success(e.data) else Failure(e.error))
      && (e.status == ActionOk ==> e.error == "") && (e.status == ActionError ==> e.data == "")
  {}

  // ---------------------------------------------------------------------
  // The two shared objects, one atomic region at a time

  function AfterSignal(pipe: nat): nat { if pipe < PIPE_CAPACITY then pipe + 1 else pipe }

  function AfterRead(pipe: nat): nat { if pipe < DRAIN_CHUNK then 0 else pipe - DRAIN_CHUNK }

  /** ResponseChannel together with the pipe it wakes. */
  class ResponseChannel<T> {
    var queue: seq<T>
    var pipe: nat

    constructor ()
      ensures queue == [] && pipe == 0
    {
      queue, pipe := [], 0;
    }

    /** The locked half of push. */
    method Enqueue(e: T)
      modifies this`queue
      ensures queue == old(queue) + [e]
    {
      queue := queue + [e];
    }

    /** The write half of push; a full pipe refuses the byte and stays readable. */
    method Signal()
      modifies this`pipe
      ensures pipe == AfterSignal(old(pipe)) && pipe > 0
      ensures pipe == old(pipe) + if old(pipe) < 65536 then 1 else 0
    {
      if pipe < PIPE_CAPACITY { pipe := pipe + 1; }
    }

    /** try_pop. */
    method TryPop() returns (r: Option<T>)
      modifies this`queue
      ensures old(queue) == [] ==> r == None && queue == []
      ensures old(queue) != [] ==> r == Some(old(queue)[0]) && queue == old(queue)[1..]
    {
      if queue == [] { return None; }
      r := Some(queue[0]);
      queue := queue[1..];
    }

    /** One read of drain_wake_pipe; an empty pipe has nothing to read. */
    method ReadWake() returns (some: bool)
      modifies this`pipe
      ensures pipe == AfterRead(old(pipe)) && (some <==> old(pipe) > 0)
      ensures old(pipe) - pipe == if old(pipe) < 64 then old(pipe) else 64
    {
      some := pipe > 0;
      pipe := AfterRead(pipe);
    }

    /** drain_wake_pipe with no writer in between: reads until there is nothing to read. */
    method DrainWakePipe()
      modifies this`pipe
      ensures pipe == 0
    {
      var some := true;
      while some
        invariant !some ==> pipe == 0
        decreases pipe, some
      {
        some := ReadWake();
      }
    }
  }

  // ---------------------------------------------------------------------
  // State

  /**
   What became of a request: refused before a worker existed, still in on_action, or finished one way
   or the other.
   */
  datatype Fate = Refused(message: string) | Running | Returned(envelopes: seq<Envelope>) | Threw(message: string)

  /** One received request: how many of its envelopes are enqueued, and whether the last one's wake byte is written. */
  datatype Task = Task(actionId: string, fate: Fate, next: nat, signalled: bool)

  /** The envelopes a request is owed. */
  function Owed(t: Task): seq<Envelope> {
    match t.fate
    case Refused(message) => [ErrorEnvelope(t.actionId, message)]
    case Running => []
    case Returned(envelopes) => envelopes
    case Threw(message) => [ErrorEnvelope(t.actionId, message)]
  }

  /** A reply and the request that caused it. */
  datatype Reply = Reply(source: nat, envelope: Envelope)

  datatype Pc =
    | Polling
    | Draining(clientReady: bool)
    | Popping(clientReady: bool)
    | Sending(reply: Reply, clientReady: bool)
    | Receiving
    | Refusing(task: nat)
    | Stopped

  datatype State = State(pc: Pc, queue: seq<Reply>, pipe: nat, tasks: seq<Task>, handed: seq<Reply>, pushed: seq<Reply>)

  const INITIAL := State(Polling, [], 0, [], [], [])

  datatype Step =
    | Poll(clientReady: bool)
    | PollInterrupted
    | PollFailed
    | Drain
    | Pop
    | Send
    | ReceiveAccepted(actionId: string)
    | ReceiveRefused(actionId: string, message: string)
    | ReceiveOther
    | ReceiveLast
    | Finish(task: nat, fate: Fate)
    | Enqueue(task: nat)
    | Signal(task: nat)

  predicate Enabled(s: State, step: Step) {
    match step
    case Poll(clientReady) => s.pc.Polling? && (s.pipe > 0 || clientReady)
    case PollInterrupted => s.pc.Polling?
    case PollFailed => s.pc.Polling?
    case Drain => s.pc.Draining?
    case Pop => s.pc.Popping?
    case Send => s.pc.Sending?
    case ReceiveAccepted(_) => s.pc.Receiving?
    case ReceiveRefused(_, _) => s.pc.Receiving?
    case ReceiveOther => s.pc.Receiving?
    case ReceiveLast => s.pc.Receiving?
    case Finish(i, fate) => i < |s.tasks| && s.tasks[i].fate.Running? && (fate.Returned? || fate.Threw?)
    case Enqueue(i) => i < |s.tasks| && s.tasks[i].signalled && s.tasks[i].next < |Owed(s.tasks[i])|
    case Signal(i) => i < |s.tasks| && !s.tasks[i].signalled
  }

  function AfterQueue(clientReady: bool): Pc { if clientReady then Receiving else Polling }

  function Next(s: State, step: Step): State
    requires Enabled(s, step)
  {
    match step
    case Poll(clientReady) => s.(pc := if s.pipe > 0 then Draining(clientReady) else Receiving)
    case PollInterrupted => s
    case PollFailed => s.(pc := Stopped)
    case Drain =>
      if s.pipe > 0 then s.(pipe := AfterRead(s.pipe)) else s.(pc := Popping(s.pc.clientReady))
    case Pop =>
      if s.queue == [] then s.(pc := AfterQueue(s.pc.clientReady))
      else s.(queue := s.queue[1..], pc := Sending(s.queue[0], s.pc.clientReady))
    case Send => s.(handed := s.handed + [s.pc.reply], pc := Popping(s.pc.clientReady))
    case ReceiveAccepted(id) => s.(tasks := s.tasks + [Task(id, Running, 0, true)], pc := Polling)
    case ReceiveRefused(id, message) =>
      s.(tasks := s.tasks + [Task(id, Refused(message), 0, true)], pc := Refusing(|s.tasks|))
    case ReceiveOther => s.(pc := Polling)
    case ReceiveLast => s.(pc := Stopped)
    case Finish(i, fate) => s.(tasks := s.tasks[i := s.tasks[i].(fate := fate)])
    case Enqueue(i) =>
      var t := s.tasks[i];
      var reply := Reply(i, Owed(t)[t.next]);
      s.(queue := s.queue + [reply], pushed := s.pushed + [reply],
         tasks := s.tasks[i := t.(next := t.next + 1, signalled := false)])
    case Signal(i) =>
      s.(pipe := AfterSignal(s.pipe), tasks := s.tasks[i := s.tasks[i].(signalled := true)],
         pc := if s.pc == Refusing(i) then Polling else s.pc)
  }

  /** The loop drains first if the pipe is readable and then, if the client was ready in the same poll, receives. */
  lemma LoopServesBoth(s: State)
    ensures s.pc == Polling && s.pipe > 0 ==>
      Next(s, Poll(true)).pc == Draining(true) && Next(s, Poll(false)).pc == Draining(false)
    ensures s.pc == Polling && s.pipe == 0 ==> Next(s, Poll(true)).pc == Receiving
    ensures s.pc == Popping(true) && s.queue == [] ==> Next(s, Pop).pc == Receiving
    ensures s.pc == Popping(false) && s.queue == [] ==> Next(s, Pop).pc == Polling
    ensures s.pc == Polling ==> Next(s, PollInterrupted) == s && Next(s, PollFailed).pc == Stopped
  {}

  /**
   An accepted request gets a worker; a rejected one is refused by the loop before it polls again; a
   shutdown or a lost connection stops it.
   */
  lemma ReceivingStartsTasks(s: State, actionId: string, message: string)
    requires s.pc == Receiving
    ensures Next(s, ReceiveAccepted(actionId))
      == s.(pc := Polling, tasks := s.tasks + [Task(actionId, Running, 0, true)])
    ensures var s' := Next(s, ReceiveRefused(actionId, message));
      s' == s.(pc := Refusing(|s.tasks|), tasks := s.tasks + [Task(actionId, Refused(message), 0, true)])
      && !Enabled(s', Poll(true)) && Owed(s'.tasks[|s.tasks|]) == [ActionResponse(actionId, ActionError, "", message)]
    ensures Next(s, ReceiveOther) == s.(pc := Polling) && Next(s, ReceiveLast) == s.(pc := Stopped)
  {}

  /** A worker ends once, with what its handler returned or threw, and only then has replies to push. */
  lemma WorkerEndsOnce(s: State, i: nat, fate: Fate)
    requires i < |s.tasks| && s.tasks[i].fate.Running? && s.tasks[i].next == 0
    ensures !Enabled(s, Enqueue(i))
    ensures Enabled(s, Finish(i, fate)) <==> fate.Returned? || fate.Threw?
    ensures Enabled(s, Finish(i, fate)) ==>
      && Next(s, Finish(i, fate)).tasks[i] == s.tasks[i].(fate := fate)
      && !Enabled(Next(s, Finish(i, fate)), Finish(i, fate))
  {}

  function Execute(s: State, steps: seq<Step>): Option<State>
    decreases steps
  {
    if steps == [] then Some(s)
    else if Enabled(s, steps[0]) then Execute(Next(s, steps[0]), steps[1..])
    else None
  }

  ghost predicate Reachable(s: State) {
    exists steps :: Execute(INITIAL, steps) == Some(s)
  }

  // ---------------------------------------------------------------------
  // Invariants

  function InHand(pc: Pc): seq<Reply> { if pc.Sending? then [pc.reply] else [] }

  /** The loop has started draining the pipe and not yet seen the queue empty. */
  predicate Sweeping(pc: Pc) { pc.Draining? || pc.Popping? || pc.Sending? }

  /** Some pusher is between its enqueue and its wake byte. */
  ghost predicate PushInFlight(tasks: seq<Task>) {
    exists i :: 0 <= i < |tasks| && !tasks[i].signalled
  }

  ghost predicate NoLostWakeup(s: State) {
    s.queue != [] ==> s.pipe > 0 || PushInFlight(s.tasks) || Sweeping(s.pc)
  }

  /** The envelopes of one request, in push order. */
  function From(replies: seq<Reply>, source: nat): seq<Envelope> {
    if replies == [] then []
    else
      var last := replies[|replies| - 1];
      From(replies[..|replies| - 1], source) + if last.source == source then [last.envelope] else []
  }

  ghost predicate Conserved(s: State) {
    s.handed + InHand(s.pc) + s.queue == s.pushed
  }

  ghost predicate Ordered(s: State) {
    && (forall r <- s.pushed :: r.source < |s.tasks|)
    && (forall i :: 0 <= i < |s.tasks| ==>
          s.tasks[i].next <= |Owed(s.tasks[i])| && From(s.pushed, i) == Owed(s.tasks[i])[..s.tasks[i].next])
  }

  /** A refusal is pushed by the loop itself, so at most one is unfinished and the loop is inside it. */
  ghost predicate RefusalsByLoop(s: State) {
    forall i :: 0 <= i < |s.tasks| && s.tasks[i].fate.Refused? ==>
      s.pc == Refusing(i) || (s.tasks[i].next == 1 && s.tasks[i].signalled)
  }

  ghost predicate WriteFollowsPush(s: State) {
    forall t <- s.tasks :: !t.signalled ==> t.next > 0
  }

  /** Inside a refusal the loop has its one push, or the write after it, still to do. */
  ghost predicate RefusalUnderWay(s: State) {
    s.pc.Refusing? ==>
      s.pc.task < |s.tasks| && var t := s.tasks[s.pc.task];
      t.fate.Refused? && t.next == if t.signalled then 0 else 1
  }

  ghost predicate Invariant(s: State) {
    && NoLostWakeup(s) && Conserved(s) && Ordered(s)
    && RefusalsByLoop(s) && WriteFollowsPush(s) && RefusalUnderWay(s)
  }

  lemma FromSnoc(replies: seq<Reply>, r: Reply, i: nat)
    ensures From(replies + [r], i) == From(replies, i) + if r.source == i then [r.envelope] else []
  {}

  lemma {:induction false} FromNone(replies: seq<Reply>, i: nat)
    requires forall r <- replies :: r.source != i
    ensures From(replies, i) == []
  {
    if replies != [] { FromNone(replies[..|replies| - 1], i); }
  }

  lemma WakeupIsKept(s: State, step: Step)
    requires Invariant(s) && Enabled(s, step)
    ensures NoLostWakeup(Next(s, step))
  {
    hide Owed, From, Conserved, Ordered;
    var s' := Next(s, step);
    match step {
      case Enqueue(i) => assert !s'.tasks[i].signalled;
      case Finish(i, fate) =>
        if PushInFlight(s.tasks) {
          var j :| 0 <= j < |s.tasks| && !s.tasks[j].signalled;
          assert !s'.tasks[j].signalled;
        }
      case ReceiveAccepted(_) =>
        if PushInFlight(s.tasks) {
          var j :| 0 <= j < |s.tasks| && !s.tasks[j].signalled;
          assert !s'.tasks[j].signalled;
        }
      case ReceiveRefused(_, _) =>
        if PushInFlight(s.tasks) {
          var j :| 0 <= j < |s.tasks| && !s.tasks[j].signalled;
          assert !s'.tasks[j].signalled;
        }
      case _ =>
    }
  }

  lemma ConservationIsKept(s: State, step: Step)
    requires Invariant(s) && Enabled(s, step)
    ensures Conserved(Next(s, step))
  {}

  lemma OrderIsKept(s: State, step: Step)
    requires Invariant(s) && Enabled(s, step)
    ensures Ordered(Next(s, step))
  {
    hide From, NoLostWakeup, Conserved, RefusalsByLoop;
    var s' := Next(s, step);
    match step {
      case ReceiveAccepted(_) => FromNone(s.pushed, |s.tasks|);
      case ReceiveRefused(_, _) => FromNone(s.pushed, |s.tasks|);
      case Enqueue(i) =>
        forall j | 0 <= j < |s'.tasks|
          ensures s'.tasks[j].next <= |Owed(s'.tasks[j])| && From(s'.pushed, j) == Owed(s'.tasks[j])[..s'.tasks[j].next]
        {
          FromSnoc(s.pushed, Reply(i, Owed(s.tasks[i])[s.tasks[i].next]), j);
          assert Owed(s'.tasks[j]) == Owed(s.tasks[j]);
        }
      case _ =>
    }
  }

  lemma RefusalsAreKept(s: State, step: Step)
    requires Invariant(s) && Enabled(s, step)
    ensures RefusalsByLoop(Next(s, step)) && WriteFollowsPush(Next(s, step))
  {
    hide From, NoLostWakeup, Conserved;
  }

  lemma RefusalIsKept(s: State, step: Step)
    requires RefusalUnderWay(s) && Enabled(s, step)
    ensures RefusalUnderWay(Next(s, step))
  {}

  lemma {:induction false} InvariantHolds(s: State, steps: seq<Step>)
    requires Invariant(s) && Execute(s, steps).Some?
    ensures Invariant(Execute(s, steps).value)
    decreases steps
  {
    if steps != [] {
      WakeupIsKept(s, steps[0]);
      ConservationIsKept(s, steps[0]);
      OrderIsKept(s, steps[0]);
      RefusalsAreKept(s, steps[0]);
      RefusalIsKept(s, steps[0]);
      hide Next, Enabled, NoLostWakeup, Conserved, Ordered, RefusalsByLoop, WriteFollowsPush, RefusalUnderWay;
      InvariantHolds(Next(s, steps[0]), steps[1..]);
    }
  }

  lemma ReachableInvariant(s: State)
    requires Reachable(s)
    ensures Invariant(s)
  {
    var steps :| Execute(INITIAL, steps) == Some(s);
    InvariantHolds(INITIAL, steps);
  }

  // ---------------------------------------------------------------------
  // What the invariants mean for a blocked loop and for the requests

  /** A loop waiting in poll with nobody mid-push cannot have replies queued behind a silent pipe. */
  lemma BlockedLoopOwesNothing(s: State)
    requires Reachable(s) && s.pc == Polling && !PushInFlight(s.tasks) && !Enabled(s, Poll(false))
    ensures s.queue == [] && s.handed == s.pushed
  {
    ReachableInvariant(s);
  }

  /**
   Handed over, in hand, or queued: every push exactly once, in push order; per request, a prefix of
   what it is owed, in its own order.
   */
  lemma RepliesAreConserved(s: State, i: nat)
    requires Reachable(s) && i < |s.tasks|
    ensures var t, seen := s.tasks[i], From(s.handed + InHand(s.pc) + s.queue, i);
      && s.handed + InHand(s.pc) + s.queue == s.pushed
      && seen <= Owed(t)
      && (t.next == |Owed(t)| ==> seen == Owed(t))
  {
    hide From, Owed;
    ReachableInvariant(s);
  }

  /**
   A finished handler's envelopes go out one by one in its own order: so far a prefix, all of them or
   one more push to come.
   */
  lemma ReturnedAreReplied(s: State, i: nat)
    requires Reachable(s) && i < |s.tasks| && s.tasks[i].fate.Returned?
    ensures var t, seen := s.tasks[i], From(s.pushed, i);
      && seen <= t.fate.envelopes && |seen| == t.next
      && (seen == t.fate.envelopes || Enabled(s, if t.signalled then Enqueue(i) else Signal(i)))
  {
    hide From;
    ReachableInvariant(s);
  }

  predicate Answers(e: Envelope, actionId: string) {
    e.ActionResponse? && e.actionId == actionId && e.status == ActionError && e.data == ""
  }

  /** A request without a worker, or whose handler threw, contributes exactly one error under its own action id. */
  lemma OneErrorEach(s: State, i: nat)
    requires Reachable(s) && i < |s.tasks|
    ensures var t, seen := s.tasks[i], From(s.pushed, i);
      && (t.fate.Refused? && s.pc != Refusing(i) ==>
            |seen| == 1 && Answers(seen[0], t.actionId) && seen[0].error == t.fate.message)
      && (t.fate.Threw? && t.next > 0 ==>
            |seen| == 1 && Answers(seen[0], t.actionId) && seen[0].error == t.fate.message)
      && (t.fate.Running? ==> seen == [])
  {
    hide From;
    ReachableInvariant(s);
  }

  /** A request keeps its action id for ever, and its outcome once it has one. */
  lemma {:induction false} TasksAreStable(s: State, steps: seq<Step>, i: nat)
    requires Execute(s, steps).Some? && i < |s.tasks|
    ensures var s' := Execute(s, steps).value;
      && i < |s'.tasks| && s'.tasks[i].actionId == s.tasks[i].actionId && s'.tasks[i].next >= s.tasks[i].next
      && (!s.tasks[i].fate.Running? ==> s'.tasks[i].fate == s.tasks[i].fate)
      && s.pushed <= s'.pushed && s.handed <= s'.handed
    decreases steps
  {
    if steps != [] { TasksAreStable(Next(s, steps[0]), steps[1..], i); }
  }

  // ---------------------------------------------------------------------
  // Delivery: left to itself the loop empties what is queued

  lemma {:induction false} ExecuteConcat(s: State, a: seq<Step>, b: seq<Step>)
    requires Execute(s, a).Some?
    ensures Execute(s, a + b) == Execute(Execute(s, a).value, b)
    decreases a
  {
    hide Next, Enabled;
    if a == [] {
      assert a + b == b;
    } else {
      assert (a + b)[0] == a[0] && (a + b)[1..] == a[1..] + b;
      ExecuteConcat(Next(s, a[0]), a[1..], b);
    }
  }

  lemma {:induction false} DrainEmptiesPipe(s: State) returns (steps: seq<Step>)
    requires s.pc.Draining?
    ensures Execute(s, steps) == Some(s.(pc := Popping(s.pc.clientReady), pipe := 0))
    decreases s.pipe
  {
    if s.pipe == 0 {
      steps := [Drain];
      assert Execute(Next(s, Drain), steps[1..]) == Some(Next(s, Drain));
    } else {
      var rest := DrainEmptiesPipe(Next(s, Drain));
      steps := [Drain] + rest;
      assert steps[1..] == rest;
    }
  }

  lemma {:induction false} PopsHandOver(s: State) returns (steps: seq<Step>)
    requires s.pc.Popping?
    ensures Execute(s, steps) == Some(s.(pc := AfterQueue(s.pc.clientReady), queue := [], handed := s.handed + s.queue))
    decreases |s.queue|
  {
    if s.queue == [] {
      steps := [Pop];
      assert s.handed + s.queue == s.handed;
      assert Execute(Next(s, Pop), steps[1..]) == Some(Next(s, Pop));
    } else {
      var mid := Next(Next(s, Pop), Send);
      var rest := PopsHandOver(mid);
      steps := [Pop, Send] + rest;
      assert steps[1..][0] == Send && steps[1..][1..] == rest;
      assert s.handed + [s.queue[0]] + s.queue[1..] == s.handed + s.queue;
      assert Execute(s, steps) == Execute(Next(s, Pop), steps[1..]);
    }
  }

  lemma SweepFromDrain(s: State) returns (steps: seq<Step>)
    requires s.pc.Draining?
    ensures Execute(s, steps)
         == Some(s.(pc := AfterQueue(s.pc.clientReady), pipe := 0, queue := [], handed := s.handed + s.queue))
  {
    hide Execute, Next, Enabled;
    var a := DrainEmptiesPipe(s);
    var b := PopsHandOver(s.(pc := Popping(s.pc.clientReady), pipe := 0));
    ExecuteConcat(s, a, b);
    steps := a + b;
  }

  lemma StepThen(s: State, step: Step, rest: seq<Step>)
    requires Enabled(s, step)
    ensures Execute(s, [step] + rest) == Execute(Next(s, step), rest)
  {
    hide Enabled, Next;
    assert ([step] + rest)[1..] == rest;
  }

  /** Poll returns at once on a readable pipe, and the loop alone hands over everything queued. */
  lemma PollDelivers(s: State) returns (steps: seq<Step>)
    requires s.pc == Polling && s.pipe > 0
    ensures Execute(s, steps) == Some(s.(pipe := 0, queue := [], handed := s.handed + s.queue))
  {
    var rest := SweepFromDrain(Next(s, Poll(false)));
    StepThen(s, Poll(false), rest);
    steps := [Poll(false)] + rest;
  }

  /** Everything pushed has been handed over, including all that `s` had pushed. */
  ghost predicate HandedOver(s: State, end: Option<State>) {
    end.Some? && end.value.queue == [] && end.value.handed == end.value.pushed && s.pushed <= end.value.handed
  }

  lemma {:induction false} PushedGrows(s: State, steps: seq<Step>)
    requires Execute(s, steps).Some?
    ensures s.pushed <= Execute(s, steps).value.pushed
    decreases steps
  {
    if steps != [] { PushedGrows(Next(s, steps[0]), steps[1..]); }
  }

  /**
   Whatever the workers do meanwhile: when a sweep ends on an empty pop, everything enqueued before
   that pop is handed over.
   */
  lemma SweepHandsOverAll(s: State, steps: seq<Step>)
    requires Reachable(s) && Execute(s, steps).Some?
    requires var end := Execute(s, steps).value;
      end.pc.Popping? && end.queue == []
    ensures HandedOver(s, Some(Next(Execute(s, steps).value, Pop)))
  {
    hide Execute, NoLostWakeup, Ordered, RefusalsByLoop;
    ReachableInvariant(s);
    InvariantHolds(s, steps);
    PushedGrows(s, steps);
    var end := Execute(s, steps).value;
    assert end.handed + [] + [] == end.handed;
  }

  /** Lets the pusher of task `i` write its wake byte, then sweeps. */
  lemma SignalThenSweep(s: State, i: nat) returns (steps: seq<Step>)
    requires i < |s.tasks| && !s.tasks[i].signalled && (s.pc == Polling || s.pc == Refusing(i))
      && s.handed + s.queue == s.pushed
    ensures HandedOver(s, Execute(s, steps))
  {
    var awake := Next(s, Signal(i));
    var rest := PollDelivers(awake);
    StepThen(s, Signal(i), rest);
    steps := [Signal(i)] + rest;
  }

  /**
   From every reachable state in which the loop is neither receiving nor stopped, it can still hand
   over everything pushed so far.
   */
  lemma QueuedRepliesAreDelivered(s: State) returns (steps: seq<Step>)
    requires Reachable(s) && !s.pc.Receiving? && !s.pc.Stopped?
    ensures HandedOver(s, Execute(s, steps))
  {
    ReachableInvariant(s);
    hide Execute, Ordered, WriteFollowsPush, RefusalsByLoop, Owed;
    assert s.handed + [] + s.queue == s.handed + s.queue;
    if s.pc.Draining? {
      steps := SweepFromDrain(s);
    } else if s.pc.Popping? {
      steps := PopsHandOver(s);
    } else if s.pc.Sending? {
      var rest := PopsHandOver(Next(s, Send));
      StepThen(s, Send, rest);
      steps := [Send] + rest;
    } else if s.pc.Refusing? {
      steps := RefuseThenSweep(s);
    } else if s.queue == [] {
      steps := [];
      assert Execute(s, []) == Some(s) by { RunNothing(s); }
      assert s.handed + s.queue == s.handed;
    } else if s.pipe > 0 {
      steps := PollDelivers(s);
    } else {
      var i :| 0 <= i < |s.tasks| && !s.tasks[i].signalled;
      steps := SignalThenSweep(s, i);
    }
  }

  lemma RunNothing(s: State)
    ensures Execute(s, []) == Some(s)
  {}

  lemma RefuseThenSweep(s: State) returns (steps: seq<Step>)
    requires s.pc.Refusing? && RefusalUnderWay(s) && s.handed + s.queue == s.pushed
    ensures HandedOver(s, Execute(s, steps))
  {
    var i := s.pc.task;
    if s.tasks[i].signalled {
      var pushed := Next(s, Enqueue(i));
      var reply := pushed.pushed[|s.pushed|];
      assert s.handed + (s.queue + [reply]) == s.handed + s.queue + [reply];
      var rest := SignalThenSweep(pushed, i);
      StepThen(s, Enqueue(i), rest);
      steps := [Enqueue(i)] + rest;
    } else {
      steps := SignalThenSweep(s, i);
    }
  }

  // ---------------------------------------------------------------------
  // The channel object goes through the same states

  /** One step performed on the channel; the steps that do not touch it leave it alone. */
  method Perform(channel: ResponseChannel<Reply>, s: State, step: Step) returns (popped: Option<Reply>)
    requires Enabled(s, step) && channel.queue == s.queue && channel.pipe == s.pipe
    modifies channel
    ensures channel.queue == Next(s, step).queue && channel.pipe == Next(s, step).pipe
    ensures step.Pop? ==>
      Next(s, step).pc == match popped
        case Some(reply) => Sending(reply, s.pc.clientReady)
        case None => AfterQueue(s.pc.clientReady)
  {
    popped := None;
    match step {
      case Enqueue(i) => channel.Enqueue(Reply(i, Owed(s.tasks[i])[s.tasks[i].next]));
      case Signal(_) => channel.Signal();
      case Drain => var _ := channel.ReadWake();
      case Pop => popped := channel.TryPop();
      case _ =>
    }
  }

  /** Every run of the state machine, replayed on a channel object, region by region. */
  method Replay(steps: seq<Step>) returns (channel: ResponseChannel<Reply>, s: State)
    requires Execute(INITIAL, steps).Some?
    ensures Execute(INITIAL, steps) == Some(s) && channel.queue == s.queue && channel.pipe == s.pipe
  {
    hide Next, Enabled;
    channel := new ResponseChannel();
    s := INITIAL;
    assert steps[0..] == steps;
    for i := 0 to |steps|
      invariant fresh(channel) && channel.queue == s.queue && channel.pipe == s.pipe
      invariant Execute(s, steps[i..]) == Execute(INITIAL, steps)
    {
      assert steps[i..][0] == steps[i] && steps[i..][1..] == steps[i + 1..];
      var _ := Perform(channel, s, steps[i]);
      s := Next(s, steps[i]);
    }
  }
}
