/** Intuition's deferred actions: client tasks queue messages, the input task runs their handlers.
    Every step is what one task does without another task being able to come in between. */
module IntuiActions {
  import opened Wrappers

  type Task = nat
  type MsgId = nat

  /** A queued action; owner is None for the copies that DoASyncAction queues. */
  datatype Msg = Msg(owner: Option<Task>, done: bool, alive: bool)

  /** Where a task is inside DoSyncAction. */
  datatype Phase =
    | Idle         // not inside
    | Preparing    // reply port made, message filled in
    | Queued       // message on the queue, about to test done
    | Sending      // done was not set, about to start the IO request
    | CheckingIO   // in WaitIO, about to look for the reply
    | SleepingIO   // in WaitIO, waiting for the signal
    | Testing      // about to test done
    | Sleeping     // waiting for the signal
    | Leaving      // done was seen set

  datatype IO = NoIO | Pending | Replied

  /** A client task; signal is its sticky SIGF_INTUITION bit, which both waits consume. */
  datatype Client = Client(phase: Phase, msg: MsgId, signal: bool, io: IO)

  /** Where the input task is inside HandleIntuiActions. */
  datatype Input =
    | Free
    | Handling(msg: MsgId)   // removed from the queue
    | Handled(msg: MsgId)    // the handler has run
    | Forbidden(msg: MsgId)  // after Forbid
    | Marked(msg: MsgId)     // done is set
    | Signalled              // before Permit
  {
    predicate Forbids() {
      Forbidden? || Marked? || Signalled?
    }
  }

  /** How a call of DoSyncAction by another task ended. */
  datatype Outcome = Ran(task: Task, msg: MsgId) | Skipped(task: Task)

  /** Messages are numbered in the order in which they enter the queue.  While a system gadget is dragged
      HandleIntuiActions returns at once. */
  datatype State = State(clients: seq<Client>, msgs: seq<Msg>, queue: seq<MsgId>, input: Input,
                         handled: seq<MsgId>, outcomes: seq<Outcome>, dragging: bool)

  datatype Step =
    // calls
    | Begin(c: Task, port: bool)
    | Async(memory: bool)
    // the user, noticed by the input task
    | Drag(on: bool)
    // DoSyncAction
    | Enqueue(c: Task)
    | FirstTest(c: Task)
    | Send(c: Task)
    | CheckIO(c: Task)
    | WakeIO(c: Task)
    | Test(c: Task)
    | Wake(c: Task)
    | Leave(c: Task)
    // input.device
    | Reply(c: Task)
    // HandleIntuiActions
    | Take
    | RunHandler
    | FreeCopy
    | Forbid
    | SetDone
    | SignalOwner
    | Permit
  {
    /** New calls, and the user starting or ending to drag a system gadget. */
    predicate FromOutside() {
      Begin? || Async? || Drag?
    }

    predicate ByInput() {
      Drag? || Take? || RunHandler? || FreeCopy? || Forbid? || SetDone? || SignalOwner? || Permit?
    }
  }

  predicate At(s: State, c: Task, phase: Phase) {
    c < |s.clients| && s.clients[c].phase == phase
  }

  predicate IsDone(s: State, m: MsgId) {
    m < |s.msgs| && s.msgs[m].done
  }

  predicate Owned(s: State, m: MsgId) {
    m < |s.msgs| && s.msgs[m].owner.Some? && s.msgs[m].owner.value < |s.clients|
  }

  /** A step can be taken.  While the input task forbids task switches nobody else runs. */
  predicate Enabled(s: State, step: Step) {
    && (step.ByInput() || !s.input.Forbids())
    && CanDo(s, step)
  }

  predicate CanDo(s: State, step: Step) {
    match step
    case Begin(c, _) => At(s, c, Idle)
    case Async(_) => true
    case Enqueue(c) => At(s, c, Preparing)
    case FirstTest(c) => At(s, c, Queued)
    case Send(c) => At(s, c, Sending)
    case CheckIO(c) => At(s, c, CheckingIO)
    case WakeIO(c) => At(s, c, SleepingIO) && s.clients[c].signal
    case Test(c) => At(s, c, Testing)
    case Wake(c) => At(s, c, Sleeping) && s.clients[c].signal
    case Leave(c) => At(s, c, Leaving) && s.clients[c].msg < |s.msgs|
    case Reply(c) => c < |s.clients| && s.clients[c].io == Pending
    case Drag(_) => s.input.Free?
    case Take => s.input.Free? && s.queue != [] && !s.dragging
    case RunHandler => s.input.Handling?
    case FreeCopy => s.input.Handled? && s.input.msg < |s.msgs| && s.msgs[s.input.msg].owner.None?
    case Forbid => s.input.Handled? && Owned(s, s.input.msg)
    case SetDone => s.input.Forbidden? && Owned(s, s.input.msg)
    case SignalOwner => s.input.Marked? && Owned(s, s.input.msg)
    case Permit => s.input.Signalled?
  }

  function WithClient(s: State, c: Task, client: Client): State
    requires c < |s.clients|
  {
    s.(clients := s.clients[c := client])
  }

  function Apply(s: State, step: Step): State
    requires CanDo(s, step)
  {
    match step
    case Begin(c, port) =>
      if port then WithClient(s, c, s.clients[c].(phase := Preparing))
      else s.(outcomes := s.outcomes + [Skipped(c)])
    case Async(memory) =>
      if memory then s.(msgs := s.msgs + [Msg(None, false, true)], queue := s.queue + [|s.msgs|]) else s
    case Enqueue(c) =>
      WithClient(s.(msgs := s.msgs + [Msg(Some(c), false, true)], queue := s.queue + [|s.msgs|]),
                 c, s.clients[c].(phase := Queued, msg := |s.msgs|))
    case FirstTest(c) =>
      WithClient(s, c, s.clients[c].(phase := if IsDone(s, s.clients[c].msg) then Leaving else Sending))
    case Send(c) =>
      WithClient(s, c, s.clients[c].(phase := CheckingIO, io := Pending))
    case CheckIO(c) =>
      WithClient(s, c, if s.clients[c].io == Replied then s.clients[c].(phase := Testing, io := NoIO)
                       else s.clients[c].(phase := SleepingIO))
    case WakeIO(c) =>
      WithClient(s, c, s.clients[c].(phase := CheckingIO, signal := false))
    case Test(c) =>
      WithClient(s, c, s.clients[c].(phase := if IsDone(s, s.clients[c].msg) then Leaving else Sleeping))
    case Wake(c) =>
      WithClient(s, c, s.clients[c].(phase := Testing, signal := false))
    case Leave(c) =>
      var m := s.clients[c].msg;
      WithClient(s.(msgs := s.msgs[m := s.msgs[m].(alive := false)], outcomes := s.outcomes + [Ran(c, m)]),
                 c, s.clients[c].(phase := Idle))
    case Reply(c) =>
      WithClient(s, c, s.clients[c].(io := Replied, signal := true))
    case Drag(on) =>
      s.(dragging := on)
    case Take =>
      s.(input := Handling(s.queue[0]), queue := s.queue[1..])
    case RunHandler =>
      s.(input := Handled(s.input.msg), handled := s.handled + [s.input.msg])
    case FreeCopy =>
      s.(input := Free, msgs := s.msgs[s.input.msg := s.msgs[s.input.msg].(alive := false)])
    case Forbid =>
      s.(input := Forbidden(s.input.msg))
    case SetDone =>
      s.(input := Marked(s.input.msg), msgs := s.msgs[s.input.msg := s.msgs[s.input.msg].(done := true)])
    case SignalOwner =>
      var c := s.msgs[s.input.msg].owner.value;
      WithClient(s.(input := Signalled), c, s.clients[c].(signal := true))
    case Permit =>
      s.(input := Free)
  }

  /** Nothing queued, nobody inside; signal bits may be left over from earlier. */
  predicate Init(s: State) {
    && (forall c :: 0 <= c < |s.clients| ==> s.clients[c].phase == Idle && s.clients[c].io == NoIO)
    && s.msgs == [] && s.queue == [] && s.input == Free && s.handled == [] && s.outcomes == [] && !s.dragging
  }

  // ---------- the invariant ----------

  /** Numbers from lo up to and without hi. */
  function Ids(lo: nat, hi: nat): (ids: seq<MsgId>)
    requires lo <= hi
    ensures |ids| == hi - lo && forall k :: 0 <= k < hi - lo ==> ids[k] == lo + k
    decreases hi - lo
  {
    if lo == hi then [] else [lo] + Ids(lo + 1, hi)
  }

  /** The message the input task took off the queue and has not handled yet. */
  function InFlight(input: Input): seq<MsgId> {
    if input.Handling? then [input.msg] else []
  }

  /** First in, first out, and each message once: what was handled, the one in flight and the queue
      are all messages in the order of their numbers. */
  ghost predicate Fifo(s: State) {
    s.handled + InFlight(s.input) + s.queue == Ids(0, |s.msgs|)
  }

  /** The input task is between the handler of message m and setting its done flag. */
  predicate Unfinished(input: Input, m: MsgId) {
    input == Handled(m) || input == Forbidden(m)
  }

  /** The message was handled and the input task is through with it. */
  predicate Finished(s: State, m: MsgId) {
    m < |s.handled| && !Unfinished(s.input, m)
  }

  predicate Inside(phase: Phase) {
    !phase.Idle? && !phase.Preparing?
  }

  ghost predicate InputOk(s: State) {
    match s.input
    case Free => true
    case Handling(m) => m < |s.msgs|
    case Handled(m) => m + 1 == |s.handled|
    case Forbidden(m) => m + 1 == |s.handled| && m < |s.msgs| && s.msgs[m].owner.Some?
    case Marked(m) => m + 1 == |s.handled| && m < |s.msgs| && s.msgs[m].owner.Some?
    case Signalled => true
  }

  /** A message of a client is done exactly when the input task is through with it, and as long as
      it is not dead its owner is inside the call. */
  ghost predicate MsgOk(s: State, m: MsgId)
    requires m < |s.msgs|
  {
    match s.msgs[m].owner
    case None => s.msgs[m].alive <==> !Finished(s, m)
    case Some(c) =>
      && c < |s.clients|
      && (s.msgs[m].done <==> Finished(s, m))
      && (s.msgs[m].alive <==> Inside(s.clients[c].phase) && s.clients[c].msg == m)
      && (!s.msgs[m].alive ==> s.msgs[m].done)
  }

  /** No wakeup is lost: a client that sleeps although its message is done, or its IO request is
      replied, has the signal pending or is about to get it. */
  ghost predicate ClientOk(s: State, c: Task)
    requires c < |s.clients|
  {
    var t := s.clients[c];
    && (Inside(t.phase) ==> t.msg < |s.msgs| && s.msgs[t.msg].owner == Some(c))
    && (t.phase.Leaving? ==> IsDone(s, t.msg))
    && (t.phase.Sleeping? && IsDone(s, t.msg) ==> t.signal || s.input == Marked(t.msg))
    && (t.phase.SleepingIO? && t.io == Replied ==> t.signal)
    && (t.io.NoIO? <==> !t.phase.CheckingIO? && !t.phase.SleepingIO?)
    // the owner is not gone while the input task still has to signal it
    && (s.input.Marked? && Owned(s, s.input.msg) && s.msgs[s.input.msg].owner.value == c ==>
        Inside(t.phase) && t.msg == s.input.msg)
  }

  ghost predicate OutcomesOk(s: State) {
    forall k :: 0 <= k < |s.outcomes| && s.outcomes[k].Ran? ==>
      var m := s.outcomes[k].msg;
      Finished(s, m) && m < |s.msgs| && s.msgs[m].owner == Some(s.outcomes[k].task) && !s.msgs[m].alive
  }

  ghost predicate Inv(s: State) {
    && Fifo(s) && InputOk(s) && OutcomesOk(s)
    && (forall m :: 0 <= m < |s.msgs| ==> MsgOk(s, m))
    && (forall c :: 0 <= c < |s.clients| ==> ClientOk(s, c))
  }

  lemma InitInv(s: State)
    requires Init(s)
    ensures Inv(s)
  {
  }

  // ---------- every step keeps the invariant ----------

  lemma {:induction false} IdsSplit(lo: nat, mid: nat, hi: nat)
    requires lo <= mid <= hi
    ensures Ids(lo, hi) == Ids(lo, mid) + Ids(mid, hi)
  {
  }

  /** Positions in the handling order and message numbers agree. */
  lemma FifoFacts(s: State)
    requires Fifo(s)
    ensures |s.handled| + |InFlight(s.input)| + |s.queue| == |s.msgs|
    ensures forall k :: 0 <= k < |s.handled| ==> s.handled[k] == k
    ensures s.input.Handling? ==> s.input.msg == |s.handled|
    ensures forall k :: 0 <= k < |s.queue| ==> s.queue[k] == |s.handled| + |InFlight(s.input)| + k
  {
    var all := s.handled + InFlight(s.input) + s.queue;
    assert |all| == |s.msgs|;
    forall k | 0 <= k < |s.handled|
      ensures s.handled[k] == k
    {
      assert all[k] == s.handled[k];
    }
    if s.input.Handling? {
      assert all[|s.handled|] == s.input.msg;
    }
    forall k | 0 <= k < |s.queue|
      ensures s.queue[k] == |s.handled| + |InFlight(s.input)| + k
    {
      assert all[|s.handled| + |InFlight(s.input)| + k] == s.queue[k];
    }
  }

  /** A message more at the end of the queue. */
  lemma FifoAppend(s: State, t: State)
    requires Fifo(s) && t.handled == s.handled && t.input == s.input
    requires |t.msgs| == |s.msgs| + 1 && t.queue == s.queue + [|s.msgs|]
    ensures Fifo(t)
  {
    IdsSplit(0, |s.msgs|, |t.msgs|);
    assert s.handled + InFlight(s.input) + (s.queue + [|s.msgs|]) ==
        s.handled + InFlight(s.input) + s.queue + [|s.msgs|];
  }

  /** Steps from outside that queue nothing. */
  lemma OutsideKeeps(s: State, step: Step)
    requires Inv(s) && Enabled(s, step) && (step.Begin? || step.Drag?)
    ensures Inv(Apply(s, step))
  {
    var t := Apply(s, step);
    forall m | 0 <= m < |t.msgs|
      ensures MsgOk(t, m)
    {
      assert MsgOk(s, m);
    }
    forall c | 0 <= c < |t.clients|
      ensures ClientOk(t, c)
    {
      assert ClientOk(s, c);
    }
  }

  /** A message enters the queue. */
  lemma QueueKeeps(s: State, step: Step)
    requires Inv(s) && Enabled(s, step) && (step.Async? || step.Enqueue?)
    ensures Inv(Apply(s, step))
  {
    var t := Apply(s, step);
    FifoFacts(s);
    if |t.msgs| > |s.msgs| {
      FifoAppend(s, t);
    }
    forall m | 0 <= m < |t.msgs|
      ensures MsgOk(t, m)
    {
      if m < |s.msgs| {
        assert MsgOk(s, m);
      }
    }
    forall c | 0 <= c < |t.clients|
      ensures ClientOk(t, c)
    {
      assert ClientOk(s, c);
    }
  }

  /** The steps of a client around its IO request. */
  lemma RequestKeeps(s: State, step: Step)
    requires Inv(s) && Enabled(s, step) && (step.Send? || step.CheckIO? || step.WakeIO? || step.Reply?)
    ensures Inv(Apply(s, step))
  {
    var t := Apply(s, step);
    forall m | 0 <= m < |t.msgs|
      ensures MsgOk(t, m)
    {
      assert MsgOk(s, m);
    }
    forall c | 0 <= c < |t.clients|
      ensures ClientOk(t, c)
    {
      assert ClientOk(s, c);
    }
  }

  /** The steps of a client that tests done. */
  lemma TestKeeps(s: State, step: Step)
    requires Inv(s) && Enabled(s, step) && (step.FirstTest? || step.Test? || step.Wake?)
    ensures Inv(Apply(s, step))
  {
    var t := Apply(s, step);
    forall m | 0 <= m < |t.msgs|
      ensures MsgOk(t, m)
    {
      assert MsgOk(s, m);
    }
    forall c | 0 <= c < |t.clients|
      ensures ClientOk(t, c)
    {
      assert ClientOk(s, c);
    }
  }

  lemma LeaveKeeps(s: State, step: Step)
    requires Inv(s) && Enabled(s, step) && step.Leave?
    ensures Inv(Apply(s, step))
  {
    var t, gone := Apply(s, step), s.clients[step.c].msg;
    assert ClientOk(s, step.c) && MsgOk(s, gone);
    forall m | 0 <= m < |t.msgs|
      ensures MsgOk(t, m)
    {
      assert MsgOk(s, m);
    }
    forall c | 0 <= c < |t.clients|
      ensures ClientOk(t, c)
    {
      assert ClientOk(s, c);
    }
  }

  lemma InputKeeps(s: State, step: Step)
    requires Inv(s) && Enabled(s, step) &&
        (step.Take? || step.RunHandler? || step.FreeCopy? || step.Forbid? || step.Permit?)
    ensures Inv(Apply(s, step))
  {
    var t := Apply(s, step);
    FifoFacts(s);
    assert Fifo(t) by {
      assert t.handled + InFlight(t.input) + t.queue == s.handled + InFlight(s.input) + s.queue;
    }
    forall m | 0 <= m < |t.msgs|
      ensures MsgOk(t, m)
    {
      assert MsgOk(s, m);
    }
    forall c | 0 <= c < |t.clients|
      ensures ClientOk(t, c)
    {
      assert ClientOk(s, c);
    }
  }

  lemma SetDoneKeeps(s: State, step: Step)
    requires Inv(s) && Enabled(s, step) && step.SetDone?
    ensures Inv(Apply(s, step))
  {
    var t := Apply(s, step);
    FifoFacts(s);
    assert MsgOk(s, s.input.msg);
    forall m | 0 <= m < |t.msgs|
      ensures MsgOk(t, m)
    {
      assert MsgOk(s, m);
    }
    forall c | 0 <= c < |t.clients|
      ensures ClientOk(t, c)
    {
      assert ClientOk(s, c);
    }
  }

  lemma SignalKeeps(s: State, step: Step)
    requires Inv(s) && Enabled(s, step) && step.SignalOwner?
    ensures Inv(Apply(s, step))
  {
    var t := Apply(s, step);
    FifoFacts(s);
    forall m | 0 <= m < |t.msgs|
      ensures MsgOk(t, m)
    {
      assert MsgOk(s, m);
    }
    forall c | 0 <= c < |t.clients|
      ensures ClientOk(t, c)
    {
      assert ClientOk(s, c);
    }
  }

  /** Every step of every task keeps the invariant. */
  lemma StepKeeps(s: State, step: Step)
    requires Inv(s) && Enabled(s, step)
    ensures Inv(Apply(s, step))
  {
    hide Inv, Enabled, Apply, CanDo;
    match step
    case Begin(_, _) => OutsideKeeps(s, step);
    case Async(_) => QueueKeeps(s, step);
    case Drag(_) => OutsideKeeps(s, step);
    case Enqueue(_) => QueueKeeps(s, step);
    case Leave(_) => LeaveKeeps(s, step);
    case SetDone => SetDoneKeeps(s, step);
    case SignalOwner => SignalKeeps(s, step);
    case Take => InputKeeps(s, step);
    case RunHandler => InputKeeps(s, step);
    case FreeCopy => InputKeeps(s, step);
    case Forbid => InputKeeps(s, step);
    case Permit => InputKeeps(s, step);
    case FirstTest(_) => TestKeeps(s, step);
    case Send(_) => RequestKeeps(s, step);
    case CheckIO(_) => RequestKeeps(s, step);
    case WakeIO(_) => RequestKeeps(s, step);
    case Test(_) => TestKeeps(s, step);
    case Wake(_) => TestKeeps(s, step);
    case Reply(_) => RequestKeeps(s, step);
  }

  // ---------- what holds in every run ----------

  /** A sequence of steps that can be taken one after the other. */
  ghost predicate IsRun(s: State, steps: seq<Step>)
    decreases steps
  {
    steps == [] || (Enabled(s, steps[0]) && IsRun(Apply(s, steps[0]), steps[1..]))
  }

  ghost function After(s: State, steps: seq<Step>): State
    requires IsRun(s, steps)
    decreases steps
  {
    if steps == [] then s else After(Apply(s, steps[0]), steps[1..])
  }

  lemma {:induction false} RunKeeps(s: State, steps: seq<Step>)
    requires Inv(s) && IsRun(s, steps)
    ensures Inv(After(s, steps))
    decreases steps
  {
    if steps != [] {
      StepKeeps(s, steps[0]);
      RunKeeps(Apply(s, steps[0]), steps[1..]);
    }
  }

  /** In any interleaving, actions are handled in the order in which they entered the queue, each at
      most once, and one that has entered it and was not handled is still on its way. */
  lemma HandledInOrderOnce(s: State, steps: seq<Step>)
    requires Init(s) && IsRun(s, steps)
    ensures var t := After(s, steps);
      && (forall k :: 0 <= k < |t.handled| ==> t.handled[k] == k)
      && (forall m :: 0 <= m < |t.msgs| && m !in t.handled ==> t.input == Handling(m) || m in t.queue)
  {
    InitInv(s);
    RunKeeps(s, steps);
    var t := After(s, steps);
    FifoFacts(t);
    forall m | 0 <= m < |t.handled|
      ensures m in t.handled
    {
      assert t.handled[m] == m;
    }
    forall m | 0 <= m < |t.msgs| && m !in t.handled
      ensures t.input == Handling(m) || m in t.queue
    {
      var k := m - |t.handled| - |InFlight(t.input)|;
      if k >= 0 {
        assert t.queue[k] == m;
      }
    }
  }

  /** The caller of a synchronous action comes back only after its handler has run, exactly once. */
  lemma ReturnsAfterHandler(s: State, steps: seq<Step>, c: Task)
    requires Init(s) && IsRun(s, steps) && Enabled(After(s, steps), Leave(c))
    ensures var t := After(s, steps);
      && t.msgs[t.clients[c].msg].owner == Some(c) && t.msgs[t.clients[c].msg].done
      && (forall k :: 0 <= k < |t.handled| ==> (t.handled[k] == t.clients[c].msg <==> k == t.clients[c].msg))
      && t.clients[c].msg < |t.handled|
  {
    InitInv(s);
    RunKeeps(s, steps);
    var t := After(s, steps);
    FifoFacts(t);
    assert ClientOk(t, c) && MsgOk(t, t.clients[c].msg);
  }

  /** How calls have ended: with the handler run once, or, when CreateMsgPort failed, without a
      message ever being queued. */
  lemma EveryOutcome(s: State, steps: seq<Step>, k: nat)
    requires Init(s) && IsRun(s, steps) && k < |After(s, steps).outcomes|
    ensures var t := After(s, steps);
      t.outcomes[k].Ran? ==>
          t.outcomes[k].msg in t.handled && t.outcomes[k].msg < |t.msgs| && !t.msgs[t.outcomes[k].msg].alive
  {
    InitInv(s);
    RunKeeps(s, steps);
    FifoFacts(After(s, steps));
    var t := After(s, steps);
    if t.outcomes[k].Ran? {
      assert t.handled[t.outcomes[k].msg] == t.outcomes[k].msg;
    }
  }

  // ---------- how calls end, over runs ----------

  function Begins(steps: seq<Step>, c: Task, port: bool): nat {
    if steps == [] then 0 else (if steps[0] == Begin(c, port) then 1 else 0) + Begins(steps[1..], c, port)
  }

  function Rans(outcomes: seq<Outcome>, c: Task): nat {
    if outcomes == [] then 0 else
      var o := outcomes[|outcomes| - 1];
      Rans(outcomes[..|outcomes| - 1], c) + if o.Ran? && o.task == c then 1 else 0
  }

  function Skips(outcomes: seq<Outcome>, c: Task): nat {
    if outcomes == [] then 0 else
      Skips(outcomes[..|outcomes| - 1], c) + if outcomes[|outcomes| - 1] == Skipped(c) then 1 else 0
  }

  /** How many of the messages task c has queued. */
  function Owns(msgs: seq<Msg>, c: Task): nat {
    if msgs == [] then 0 else
      Owns(msgs[..|msgs| - 1], c) + if msgs[|msgs| - 1].owner == Some(c) then 1 else 0
  }

  lemma {:induction false} OwnsSame(a: seq<Msg>, b: seq<Msg>, c: Task)
    requires |a| == |b| && forall m :: 0 <= m < |a| ==> a[m].owner == b[m].owner
    ensures Owns(a, c) == Owns(b, c)
  {
    if a != [] {
      OwnsSame(a[..|a| - 1], b[..|b| - 1], c);
    }
  }

  lemma OneMoreOutcome(outcomes: seq<Outcome>, o: Outcome, c: Task)
    ensures Rans(outcomes + [o], c) == Rans(outcomes, c) + if o.Ran? && o.task == c then 1 else 0
    ensures Skips(outcomes + [o], c) == Skips(outcomes, c) + if o == Skipped(c) then 1 else 0
  {
    assert (outcomes + [o])[..|outcomes|] == outcomes;
  }

  lemma OneMoreMsg(msgs: seq<Msg>, m: Msg, c: Task)
    ensures Owns(msgs + [m], c) == Owns(msgs, c) + if m.owner == Some(c) then 1 else 0
  {
    assert (msgs + [m])[..|msgs|] == msgs;
  }

  function InCall(s: State, c: Task): nat {
    if c < |s.clients| && !s.clients[c].phase.Idle? then 1 else 0
  }

  function BeforeQueue(s: State, c: Task): nat {
    if At(s, c, Preparing) then 1 else 0
  }

  lemma OneBegin(step: Step, c: Task, port: bool)
    ensures Begins([step], c, port) == if step == Begin(c, port) then 1 else 0
  {
  }

  lemma StepCounts(s: State, step: Step, c: Task)
    requires Enabled(s, step)
    ensures var t := Apply(s, step);
      && Rans(t.outcomes, c) + InCall(t, c) == Rans(s.outcomes, c) + InCall(s, c) + Begins([step], c, true)
      && Skips(t.outcomes, c) == Skips(s.outcomes, c) + Begins([step], c, false)
  {
    OneBegin(step, c, true);
    OneBegin(step, c, false);
    hide Rans, Skips, Begins;
    if step.Begin? && !step.port {
      OneMoreOutcome(s.outcomes, Skipped(step.c), c);
    } else if step.Leave? {
      OneMoreOutcome(s.outcomes, Ran(step.c, s.clients[step.c].msg), c);
    }
  }

  lemma StepQueues(s: State, step: Step, c: Task)
    requires Enabled(s, step)
    ensures var t := Apply(s, step);
      Owns(t.msgs, c) + BeforeQueue(t, c) == Owns(s.msgs, c) + BeforeQueue(s, c) + Begins([step], c, true)
  {
    OneBegin(step, c, true);
    hide Owns, Begins;
    var t := Apply(s, step);
    if step.Enqueue? {
      OneMoreMsg(s.msgs, Msg(Some(step.c), false, true), c);
    } else if step.Async? {
      OneMoreMsg(s.msgs, Msg(None, false, true), c);
    } else {
      OwnsSame(s.msgs, t.msgs, c);
    }
  }

  lemma {:induction false} RunCounts(s: State, steps: seq<Step>, c: Task)
    requires IsRun(s, steps)
    ensures var t := After(s, steps);
      && Rans(t.outcomes, c) + InCall(t, c) == Rans(s.outcomes, c) + InCall(s, c) + Begins(steps, c, true)
      && Skips(t.outcomes, c) == Skips(s.outcomes, c) + Begins(steps, c, false)
      && Owns(t.msgs, c) + BeforeQueue(t, c) == Owns(s.msgs, c) + BeforeQueue(s, c) + Begins(steps, c, true)
    decreases steps
  {
    if steps != [] {
      hide Apply, Rans, Skips, Owns, InCall, BeforeQueue;
      StepCounts(s, steps[0], c);
      StepQueues(s, steps[0], c);
      RunCounts(Apply(s, steps[0]), steps[1..], c);
      assert Begins([steps[0]], c, true) + Begins(steps[1..], c, true) == Begins(steps, c, true);
      assert Begins([steps[0]], c, false) + Begins(steps[1..], c, false) == Begins(steps, c, false);
    }
  }

  /** Over any run the calls of a task whose reply port was made have queued one message each, except one
      that is just about to, and have ended with their handler run, except one still under way.  The
      others have ended as skipped and queued nothing. */
  lemma CallsAccounted(s: State, steps: seq<Step>, c: Task)
    requires Init(s) && IsRun(s, steps)
    ensures var t := After(s, steps);
      && Rans(t.outcomes, c) == Begins(steps, c, true) - InCall(t, c)
      && Skips(t.outcomes, c) == Begins(steps, c, false)
      && Owns(t.msgs, c) == Begins(steps, c, true) - BeforeQueue(t, c)
  {
    RunCounts(s, steps, c);
  }

  // ---------- asynchronous calls and IO requests, over runs ----------

  /** How many asynchronous calls got their memory. */
  function Asyncs(steps: seq<Step>): nat {
    if steps == [] then 0 else (if steps[0] == Async(true) then 1 else 0) + Asyncs(steps[1..])
  }

  /** How many messages have no owner. */
  function Copies(msgs: seq<Msg>): nat {
    if msgs == [] then 0 else
      Copies(msgs[..|msgs| - 1]) + if msgs[|msgs| - 1].owner.None? then 1 else 0
  }

  lemma {:induction false} CopiesSame(a: seq<Msg>, b: seq<Msg>)
    requires |a| == |b| && forall m :: 0 <= m < |a| ==> a[m].owner == b[m].owner
    ensures Copies(a) == Copies(b)
  {
    if a != [] {
      CopiesSame(a[..|a| - 1], b[..|b| - 1]);
    }
  }

  lemma OneMoreCopy(msgs: seq<Msg>, m: Msg)
    ensures Copies(msgs + [m]) == Copies(msgs) + if m.owner.None? then 1 else 0
  {
    assert (msgs + [m])[..|msgs|] == msgs;
  }

  lemma StepCopies(s: State, step: Step)
    requires Enabled(s, step)
    ensures Copies(Apply(s, step).msgs) == Copies(s.msgs) + if step == Async(true) then 1 else 0
  {
    hide Copies;
    if step.Enqueue? {
      OneMoreCopy(s.msgs, Msg(Some(step.c), false, true));
    } else if step.Async? {
      OneMoreCopy(s.msgs, Msg(None, false, true));
    } else {
      CopiesSame(s.msgs, Apply(s, step).msgs);
    }
  }

  lemma {:induction false} RunCopies(s: State, steps: seq<Step>)
    requires IsRun(s, steps)
    ensures Copies(After(s, steps).msgs) == Copies(s.msgs) + Asyncs(steps)
    decreases steps
  {
    if steps != [] {
      hide Apply, Copies;
      StepCopies(s, steps[0]);
      RunCopies(Apply(s, steps[0]), steps[1..]);
    }
  }

  /** Over any run every asynchronous call that got its memory, and no other, has queued one copy; a copy lives
      until its handler has run, and then it is freed. */
  lemma AsyncAccounted(s: State, steps: seq<Step>)
    requires Init(s) && IsRun(s, steps)
    ensures var t := After(s, steps);
      && Copies(t.msgs) == Asyncs(steps)
      && (forall m :: 0 <= m < |t.msgs| && t.msgs[m].owner.None? ==> (t.msgs[m].alive <==> !Finished(t, m)))
  {
    InitInv(s);
    RunKeeps(s, steps);
    RunCopies(s, steps);
    var t := After(s, steps);
    forall m | 0 <= m < |t.msgs| && t.msgs[m].owner.None?
      ensures t.msgs[m].alive <==> !Finished(t, m)
    {
      assert MsgOk(t, m);
    }
  }

  function Sends(steps: seq<Step>, c: Task): nat {
    if steps == [] then 0 else (if steps[0] == Send(c) then 1 else 0) + Sends(steps[1..], c)
  }

  function Replies(steps: seq<Step>, c: Task): nat {
    if steps == [] then 0 else (if steps[0] == Reply(c) then 1 else 0) + Replies(steps[1..], c)
  }

  function InDevice(s: State, c: Task): nat {
    if c < |s.clients| && s.clients[c].io == Pending then 1 else 0
  }

  lemma StepRequests(s: State, step: Step, c: Task)
    requires Inv(s) && Enabled(s, step)
    ensures InDevice(Apply(s, step), c) + (if step == Reply(c) then 1 else 0) ==
            InDevice(s, c) + if step == Send(c) then 1 else 0
  {
    if c < |s.clients| {
      assert ClientOk(s, c);
    }
  }

  lemma {:induction false} RunRequests(s: State, steps: seq<Step>, c: Task)
    requires Inv(s) && IsRun(s, steps)
    ensures InDevice(After(s, steps), c) + Replies(steps, c) == InDevice(s, c) + Sends(steps, c)
    decreases steps
  {
    if steps != [] {
      StepKeeps(s, steps[0]);
      StepRequests(s, steps[0], c);
      hide Apply, Inv, InDevice;
      RunRequests(Apply(s, steps[0]), steps[1..], c);
    }
  }

  /** The IO request lies on the caller's stack: outside of WaitIO, in particular once the call is over,
      input.device has replied to every request the task has sent. */
  lemma RequestsReplied(s: State, steps: seq<Step>, c: Task)
    requires Init(s) && IsRun(s, steps) && c < |After(s, steps).clients|
    ensures var t := After(s, steps).clients[c];
      !t.phase.CheckingIO? && !t.phase.SleepingIO? ==> Sends(steps, c) == Replies(steps, c)
  {
    InitInv(s);
    RunKeeps(s, steps);
    RunRequests(s, steps, c);
    assert ClientOk(After(s, steps), c);
  }

  /** A request is sent only for an action that is not finished when the caller tests done first; else the caller
      leaves at once. */
  lemma RequestIfUnfinished(s: State, steps: seq<Step>, c: Task)
    requires Init(s) && IsRun(s, steps) && Enabled(After(s, steps), FirstTest(c))
    ensures var t := After(s, steps); var u := Apply(t, FirstTest(c));
      if Finished(t, t.clients[c].msg) then Enabled(u, Leave(c)) else Enabled(u, Send(c))
  {
    InitInv(s);
    RunKeeps(s, steps);
    assert ClientOk(After(s, steps), c) && MsgOk(After(s, steps), After(s, steps).clients[c].msg);
  }

  lemma {:induction false} NothingHandled(s: State, steps: seq<Step>)
    requires IsRun(s, steps) && s.dragging && s.input == Free && forall k :: 0 <= k < |steps| ==> !steps[k].Drag?
    ensures After(s, steps).handled == s.handled && After(s, steps).dragging && After(s, steps).input == Free
    decreases steps
  {
    if steps != [] {
      NothingHandled(Apply(s, steps[0]), steps[1..]);
    }
  }

  /** From the moment a system gadget is dragged until it is let go no handler runs, whatever is called meanwhile;
      then the queue is taken up again. */
  lemma DragHolds(s: State, steps: seq<Step>)
    requires Enabled(s, Drag(true)) && IsRun(Apply(s, Drag(true)), steps)
    requires forall k :: 0 <= k < |steps| ==> !steps[k].Drag?
    ensures var t := After(Apply(s, Drag(true)), steps);
      && t.handled == s.handled && Enabled(t, Drag(false))
      && (t.queue != [] ==> Enabled(Apply(t, Drag(false)), Take))
  {
    NothingHandled(Apply(s, Drag(true)), steps);
  }

  /** The messages a step reads or writes: the queue links, the fields or the flag. */
  ghost function Touched(s: State, step: Step): set<MsgId> {
    match step
    case Enqueue(_) => set m | m in s.queue
    case Async(_) => set m | m in s.queue
    case Take => set m | m in s.queue
    case RunHandler => if s.input.Handling? then {s.input.msg} else {}
    case FreeCopy => if s.input.Handled? then {s.input.msg} else {}
    case Forbid => if s.input.Handled? then {s.input.msg} else {}
    case SetDone => if s.input.Forbidden? then {s.input.msg} else {}
    case SignalOwner => if s.input.Marked? then {s.input.msg} else {}
    case _ => {}
  }

  /** Nobody ever touches a message whose owner has returned or that was freed. */
  lemma TouchedIsAlive(s: State, steps: seq<Step>, step: Step, m: MsgId)
    requires Init(s) && IsRun(s, steps) && Enabled(After(s, steps), step) && m in Touched(After(s, steps), step)
    ensures m < |After(s, steps).msgs| && After(s, steps).msgs[m].alive
  {
    InitInv(s);
    RunKeeps(s, steps);
    InvTouched(After(s, steps), step, m);
  }

  lemma InvTouched(t: State, step: Step, m: MsgId)
    requires Inv(t) && Enabled(t, step) && m in Touched(t, step)
    ensures m < |t.msgs| && t.msgs[m].alive
  {
    FifoFacts(t);
    hide Fifo, OutcomesOk;
    assert m < |t.msgs| && MsgOk(t, m);
    if t.input.Marked? && m == t.input.msg {
      assert ClientOk(t, t.msgs[m].owner.value);
    }
  }

  /** A caller never sleeps with its action done and no signal pending, except while the input task
      is just about to signal it and nobody else can run. */
  lemma NoLostWakeup(s: State, steps: seq<Step>, c: Task)
    requires Init(s) && IsRun(s, steps) && At(After(s, steps), c, Sleeping)
    ensures var t := After(s, steps);
      IsDone(t, t.clients[c].msg) && !t.clients[c].signal ==>
          t.input == Marked(t.clients[c].msg) && Enabled(t, SignalOwner)
  {
    InitInv(s);
    RunKeeps(s, steps);
    assert ClientOk(After(s, steps), c);
  }

  /** A run of a system in which Forbid does not keep other tasks from running. */
  ghost predicate IsLooseRun(s: State, steps: seq<Step>)
    decreases steps
  {
    steps == [] || (CanDo(s, steps[0]) && IsLooseRun(Apply(s, steps[0]), steps[1..]))
  }

  ghost function AfterLoose(s: State, steps: seq<Step>): State
    requires IsLooseRun(s, steps)
    decreases steps
  {
    if steps == [] then s else AfterLoose(Apply(s, steps[0]), steps[1..])
  }

  lemma OneMore(s: State, step: Step, rest: seq<Step>)
    requires CanDo(s, step) && IsLooseRun(Apply(s, step), rest)
    ensures IsLooseRun(s, [step] + rest) && AfterLoose(s, [step] + rest) == AfterLoose(Apply(s, step), rest)
  {
    assert ([step] + rest)[1..] == rest;
  }

  /** Without Forbid the guarantee is lost: the caller tests done and returns between the two
      statements, and the input task then signals through a message that is gone. */
  lemma ForbidIsNeeded(s: State) returns (race: seq<Step>)
    requires Init(s) && |s.clients| > 0
    ensures IsLooseRun(s, race)
    ensures AfterLoose(s, race).input.Marked? && Owned(AfterLoose(s, race), AfterLoose(s, race).input.msg)
    ensures !AfterLoose(s, race).msgs[AfterLoose(s, race).input.msg].alive
  {
    var a := Apply(s, Begin(0, true));
    var b := Apply(a, Enqueue(0));
    var c := Apply(b, Take);
    var d := Apply(c, RunHandler);
    race := RaceToTheEnd(d);
    hide Apply, CanDo;
    OneMore(c, RunHandler, race);
    race := [RunHandler] + race;
    OneMore(b, Take, race);
    race := [Take] + race;
    OneMore(a, Enqueue(0), race);
    race := [Enqueue(0)] + race;
    OneMore(s, Begin(0, true), race);
    race := [Begin(0, true)] + race;
  }

  lemma RaceToTheEnd(d: State) returns (race: seq<Step>)
    requires d.input == Handled(0) && |d.msgs| > 0 && |d.clients| > 0 && d.msgs[0].owner == Some(0)
    requires d.clients[0].phase == Queued && d.clients[0].msg == 0
    ensures IsLooseRun(d, race)
    ensures AfterLoose(d, race).input.Marked? && Owned(AfterLoose(d, race), AfterLoose(d, race).input.msg)
    ensures !AfterLoose(d, race).msgs[AfterLoose(d, race).input.msg].alive
  {
    var e := Apply(d, Forbid);
    var f := Apply(e, SetDone);
    var g := Apply(f, FirstTest(0));
    race := [];
    assert IsLooseRun(Apply(g, Leave(0)), race);
    OneMore(g, Leave(0), race);
    race := [Leave(0)] + race;
    hide Apply, CanDo;
    OneMore(f, FirstTest(0), race);
    race := [FirstTest(0)] + race;
    OneMore(e, SetDone, race);
    race := [SetDone] + race;
    OneMore(d, Forbid, race);
    race := [Forbid] + race;
  }

  // ---------- every caller comes back ----------

  function PhaseWork(phase: Phase): nat {
    match phase
    case Idle => 0
    case Preparing => 17
    case Queued => 8
    case Sending => 7
    case CheckingIO => 3
    case SleepingIO => 2
    case Testing => 2
    case Sleeping => 1
    case Leaving => 1
  }

  function ClientWork(t: Client): nat {
    PhaseWork(t.phase) + (if t.signal then 2 else 0) + (if t.io == Pending then 3 else 0)
  }

  function InputWork(input: Input): nat {
    match input
    case Free => 0
    case Handling(_) => 7
    case Handled(_) => 6
    case Forbidden(_) => 5
    case Marked(_) => 4
    case Signalled => 1
  }

  function ClientsWork(clients: seq<Client>): nat {
    if clients == [] then 0 else ClientWork(clients[0]) + ClientsWork(clients[1..])
  }

  /** What is left to do when no new call is made. */
  function Work(s: State): nat {
    ClientsWork(s.clients) + 8 * |s.queue| + InputWork(s.input)
  }

  lemma {:induction false} WorkUpdate(clients: seq<Client>, c: nat, t: Client)
    requires c < |clients|
    ensures ClientsWork(clients[c := t]) == ClientsWork(clients) - ClientWork(clients[c]) + ClientWork(t)
  {
    if c == 0 {
      assert clients[0 := t][1..] == clients[1..];
    } else {
      WorkUpdate(clients[1..], c - 1, t);
      assert clients[c := t][1..] == clients[1..][c - 1 := t];
    }
  }

  /** Every step but a new call brings the end nearer. */
  lemma StepWorks(s: State, step: Step)
    requires Inv(s) && Enabled(s, step) && !step.FromOutside()
    ensures Work(Apply(s, step)) < Work(s)
  {
    if step.ByInput() {
      InputStepWorks(s, step);
    } else {
      assert ClientOk(s, step.c);
      ClientStepWorks(s, step, step.c);
    }
  }

  lemma InputStepWorks(s: State, step: Step)
    requires CanDo(s, step) && step.ByInput() && !step.FromOutside()
    ensures Work(Apply(s, step)) < Work(s)
  {
    if step.SignalOwner? {
      var c := s.msgs[s.input.msg].owner.value;
      WorkUpdate(s.clients, c, Apply(s, step).clients[c]);
    }
  }

  lemma ClientStepWorks(s: State, step: Step, c: Task)
    requires CanDo(s, step) && !step.FromOutside() && !step.ByInput() && c == step.c && ClientOk(s, c)
    ensures Work(Apply(s, step)) < Work(s)
  {
    var t := Apply(s, step);
    hide ClientsWork;
    assert t.clients == s.clients[c := t.clients[c]];
    WorkUpdate(s.clients, c, t.clients[c]);
  }

  ghost predicate NoCalls(steps: seq<Step>) {
    forall k :: 0 <= k < |steps| ==> !steps[k].FromOutside()
  }

  lemma {:induction false} RunsEnd(s: State, steps: seq<Step>)
    requires Inv(s) && IsRun(s, steps) && NoCalls(steps)
    ensures |steps| + Work(After(s, steps)) <= Work(s)
    decreases steps
  {
    if steps != [] {
      StepKeeps(s, steps[0]);
      StepWorks(s, steps[0]);
      RunsEnd(Apply(s, steps[0]), steps[1..]);
    }
  }

  /** Unless a gadget is being dragged somebody can go on as long as anybody is inside a call or anything
      is queued. */
  lemma NeverStuck(s: State) returns (step: Step)
    requires Inv(s)
    requires !s.dragging
    requires s.queue != [] || s.input != Free || exists c :: 0 <= c < |s.clients| && s.clients[c].phase != Idle
    ensures Enabled(s, step) && !step.FromOutside()
  {
    if s.input != Free {
      step := InputCanGo(s);
    } else if s.queue != [] {
      step := Take;
    } else {
      var c :| 0 <= c < |s.clients| && s.clients[c].phase != Idle;
      step := ClientCanGo(s, c);
    }
  }

  lemma InputCanGo(s: State) returns (step: Step)
    requires Inv(s) && s.input != Free
    ensures Enabled(s, step) && !step.FromOutside()
  {
    FifoFacts(s);
    match s.input
    case Handling(m) =>
      step := RunHandler;
    case Handled(m) =>
      assert MsgOk(s, m);
      step := if s.msgs[m].owner.None? then FreeCopy else Forbid;
    case Forbidden(m) =>
      assert MsgOk(s, m);
      step := SetDone;
    case Marked(m) =>
      assert MsgOk(s, m);
      step := SignalOwner;
    case Signalled =>
      step := Permit;
  }

  lemma ClientCanGo(s: State, c: Task) returns (step: Step)
    requires Inv(s) && s.input == Free && s.queue == [] && c < |s.clients| && s.clients[c].phase != Idle
    ensures Enabled(s, step) && !step.FromOutside()
  {
    FifoFacts(s);
    assert ClientOk(s, c);
    var t := s.clients[c];
    if Inside(t.phase) {
      assert MsgOk(s, t.msg) && s.msgs[t.msg].done;
    }
    match t.phase
    case Preparing => step := Enqueue(c);
    case Queued => step := FirstTest(c);
    case Sending => step := Send(c);
    case CheckingIO => step := CheckIO(c);
    case SleepingIO => step := if t.signal then WakeIO(c) else Reply(c);
    case Testing => step := Test(c);
    case Sleeping => step := Wake(c);
    case Leaving => step := Leave(c);
  }

  /** From any reachable state, whatever the order of scheduling: when no new calls are made
      the system comes to rest after a bounded number of steps, and then, unless a gadget is still being
      dragged, every caller has returned and every action was handled. */
  lemma EveryCallerReturns(s: State, before: seq<Step>, steps: seq<Step>)
    requires Init(s) && IsRun(s, before) && IsRun(After(s, before), steps) && NoCalls(steps)
    ensures |steps| <= Work(After(s, before))
    ensures var t := After(After(s, before), steps);
      !t.dragging && (forall step :: Enabled(t, step) ==> step.FromOutside()) ==>
        && t.queue == [] && t.input == Free && |t.handled| == |t.msgs|
        && (forall c :: 0 <= c < |t.clients| ==> t.clients[c].phase == Idle)
  {
    InitInv(s);
    RunKeeps(s, before);
    RunKeeps(After(s, before), steps);
    RunsEnd(After(s, before), steps);
    var t := After(After(s, before), steps);
    FifoFacts(t);
    if !t.dragging &&
        (t.queue != [] || t.input != Free || exists c :: 0 <= c < |t.clients| && t.clients[c].phase != Idle) {
      var step := NeverStuck(t);
    }
  }
  lemma {:induction false} RunsJoin(s: State, before: seq<Step>, steps: seq<Step>)
    requires IsRun(s, before) && IsRun(After(s, before), steps)
    ensures IsRun(s, before + steps) && After(s, before + steps) == After(After(s, before), steps)
    decreases before
  {
    hide Apply, CanDo;
    if before == [] {
      assert before + steps == steps;
    } else {
      RunsJoin(Apply(s, before[0]), before[1..], steps);
      FirstOf(before, steps);
      RunFrom(s, before + steps);
    }
  }

  lemma FirstOf(before: seq<Step>, steps: seq<Step>)
    requires before != []
    ensures (before + steps)[0] == before[0] && (before + steps)[1..] == before[1..] + steps
  {
  }

  lemma RunFrom(s: State, steps: seq<Step>)
    requires steps != [] && Enabled(s, steps[0]) && IsRun(Apply(s, steps[0]), steps[1..])
    ensures IsRun(s, steps) && After(s, steps) == After(Apply(s, steps[0]), steps[1..])
  {
  }

  lemma {:induction false} AsyncsJoin(before: seq<Step>, steps: seq<Step>)
    ensures Asyncs(before + steps) == Asyncs(before) + Asyncs(steps)
  {
    if before == [] {
      assert before + steps == steps;
    } else {
      FirstOf(before, steps);
      AsyncsJoin(before[1..], steps);
    }
  }

  lemma {:induction false} NoAsyncs(steps: seq<Step>)
    requires NoCalls(steps)
    ensures Asyncs(steps) == 0
  {
    if steps != [] {
      NoAsyncs(steps[1..]);
    }
  }

  /** Every accepted asynchronous action is handled exactly once: when the system has come to rest, the handler
      has run once for each message, as many of them are copies as asynchronous calls got their memory, and no
      copy is left. */
  lemma EveryAsyncHandled(s: State, before: seq<Step>, steps: seq<Step>)
    requires Init(s) && IsRun(s, before) && IsRun(After(s, before), steps) && NoCalls(steps)
    ensures var t := After(After(s, before), steps);
      !t.dragging && (forall step :: Enabled(t, step) ==> step.FromOutside()) ==>
        && t.handled == Ids(0, |t.msgs|) && Copies(t.msgs) == Asyncs(before)
        && (forall m :: 0 <= m < |t.msgs| && t.msgs[m].owner.None? ==> !t.msgs[m].alive)
  {
    hide Enabled, Apply, Init, Inv;
    var t := After(After(s, before), steps);
    EveryCallerReturns(s, before, steps);
    RunsJoin(s, before, steps);
    AsyncsJoin(before, steps);
    HandledInOrderOnce(s, before + steps);
    AsyncAccounted(s, before + steps);
    NoAsyncs(steps);
  }
}
