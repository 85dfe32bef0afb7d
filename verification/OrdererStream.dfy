/**
 The orderer's stream protocol: a producer goroutine forwards what it receives to an unbuffered
 result channel and a buffered error channel, and a consumer selects on both until the result
 channel is closed and then drains the errors.  Two processes, every interleaving.
 */
module OrdererStream {
  import opened Collections

  // ----- what the two producers do with a received message -----

  const SUCCESS := 200

  datatype BroadcastResponse = BroadcastResponse(status: int, info: string)
  datatype DeliverResponse<+B> = StatusReply(status: int) | BlockReply(block: B) | UnknownReply
  datatype StreamError = ServerStatus(code: int, info: string) | RecvFailed(cause: string)

  datatype Event<+V, +E> = Result(value: V) | Failure(error: E) | Ignored
  datatype Ending<+E> = Eof | Broken(error: E)

  /** What a stream delivers before it ends, sorted into what the producer sends on. */
  datatype Script<+V, +E> = Script(events: seq<Event<V, E>>, ending: Ending<E>)

  function BroadcastEvent(r: BroadcastResponse): Event<int, StreamError> {
    if r.status == SUCCESS then Result(r.status) else Failure(ServerStatus(r.status, r.info))
  }

  function DeliverEvent<B>(r: DeliverResponse<B>): Event<B, StreamError> {
    match r
    case StatusReply(status) =>
      if status != SUCCESS then Failure(ServerStatus(status, "error status from ordering service")) else Ignored
    case BlockReply(block) => Result(block)
    case UnknownReply => Ignored
  }

  // ----- the two processes -----

  datatype Producer<+V, +E> =
    | AtRecv
    | SendingResult(value: V)
    | SendingError(error: E, last: bool)
    | Closing
    | Finished

  /** `Draining(i)` is the head of the drain loop with its counter, `Returned(i)` its exit. */
  datatype Consumer = Selecting | Draining(i: nat) | Returned(i: nat)

  datatype State<+V, +E> = State(
    pos: nat, producer: Producer<V, E>, buffer: seq<E>, closed: bool,
    consumer: Consumer, latest: Option<V>, errors: seq<E>)

  datatype Step = Receive | PutError | Handover | CloseResults | TakeError | SeeClosed | Drain

  function Initial<V, E>(): State<V, E> {
    State(0, AtRecv, [], false, Selecting, None, [])
  }

  predicate Enabled<V, E>(script: Script<V, E>, cap: nat, s: State<V, E>, step: Step) {
    match step
    case Receive => s.producer.AtRecv? && s.pos <= |script.events|
    case PutError => s.producer.SendingError? && |s.buffer| < cap
    case Handover => s.producer.SendingResult? && s.consumer.Selecting?
    case CloseResults => s.producer.Closing?
    case TakeError => s.consumer.Selecting? && s.buffer != []
    case SeeClosed => s.consumer.Selecting? && s.closed
    case Drain => s.consumer.Draining?
  }

  function Apply<V, E>(script: Script<V, E>, cap: nat, s: State<V, E>, step: Step): State<V, E>
    requires Enabled(script, cap, s, step)
  {
    match step
    case Receive =>
      if s.pos < |script.events| then
        var p := match script.events[s.pos]
                 case Result(v) => SendingResult(v)
                 case Failure(e) => SendingError(e, false)
                 case Ignored => AtRecv;
        s.(pos := s.pos + 1, producer := p)
      else
        s.(producer := match script.ending case Eof => Closing case Broken(e) => SendingError(e, true))
    case PutError =>
      s.(buffer := s.buffer + [s.producer.error], producer := if s.producer.last then Closing else AtRecv)
    case Handover => s.(latest := Some(s.producer.value), producer := AtRecv)
    case CloseResults => s.(closed := true, producer := Finished)
    case TakeError => s.(errors := s.errors + [s.buffer[0]], buffer := s.buffer[1..])
    case SeeClosed => s.(consumer := Draining(0))
    case Drain =>
      var i := s.consumer.i;
      if i < |s.buffer| then
        s.(errors := s.errors + [s.buffer[0]], buffer := s.buffer[1..], consumer := Draining(i + 1))
      else
        s.(consumer := Returned(i))
  }

  // ----- what the stream should yield -----

  function Failures<V, E>(events: seq<Event<V, E>>): seq<E> {
    if events == [] then []
    else (match events[0] case Failure(e) => [e] case _ => []) + Failures(events[1..])
  }

  function EndingErrors<E>(ending: Ending<E>): seq<E> {
    match ending case Eof => [] case Broken(e) => [e]
  }

  /** Every error the producer emits, in order. */
  function AllErrors<V, E>(script: Script<V, E>): seq<E> {
    Failures(script.events) + EndingErrors(script.ending)
  }

  /** The last result among `events`, or `before` when there is none. */
  function Last<V, E>(before: Option<V>, events: seq<Event<V, E>>): Option<V>
    decreases events
  {
    if events == [] then before
    else Last(if events[0].Result? then Some(events[0].value) else before, events[1..])
  }

  // ----- the invariant -----

  /** The errors the producer has still to put into the channel. */
  function Unsent<V, E>(script: Script<V, E>, s: State<V, E>): seq<E>
    requires s.pos <= |script.events|
  {
    var rest := Failures(script.events[s.pos..]) + EndingErrors(script.ending);
    match s.producer
    case AtRecv => rest
    case SendingResult(_) => rest
    case SendingError(e, last) => if last then [e] else [e] + rest
    case _ => []
  }

  function Expected<V, E>(script: Script<V, E>, s: State<V, E>): Option<V>
    requires s.pos <= |script.events|
  {
    Last(if s.producer.SendingResult? then Some(s.producer.value) else s.latest, script.events[s.pos..])
  }

  predicate PastEnd<V, E>(p: Producer<V, E>) {
    p.Closing? || p.Finished? || (p.SendingError? && p.last)
  }

  ghost predicate Invariant<V, E>(script: Script<V, E>, cap: nat, s: State<V, E>) {
    && s.pos <= |script.events|
    && AllErrors(script) == s.errors + s.buffer + Unsent(script, s)
    && Expected(script, s) == Last(None, script.events)
    && (PastEnd(s.producer) ==> s.pos == |script.events|)
    && s.closed == s.producer.Finished?
    && (!s.consumer.Selecting? ==> s.closed && s.consumer.i + |s.buffer| <= cap)
    && (s.consumer.Returned? ==> |s.buffer| <= s.consumer.i)
    && |s.buffer| <= cap
  }

  lemma InitialHolds<V, E>(script: Script<V, E>, cap: nat)
    ensures Invariant(script, cap, Initial<V, E>())
  {
    assert script.events[0..] == script.events;
  }

  /** A step moves errors from the script to the channel to the consumer; none is lost or moved
      out of order. */
  lemma ErrorsConserved<V, E>(script: Script<V, E>, cap: nat, s: State<V, E>, step: Step)
    requires Invariant(script, cap, s) && Enabled(script, cap, s, step)
    ensures var s' := Apply(script, cap, s, step);
      s'.pos <= |script.events| && s'.errors + s'.buffer + Unsent(script, s') == s.errors + s.buffer + Unsent(script, s)
  {
    match step
    case Receive => ReceiveKeepsUnsent(script, cap, s);
    case PutError => MoveMiddle(s.errors, s.buffer, s.producer.error, Unsent(script, s)[1..]);
    case TakeError => MoveFirst(s.errors, s.buffer);
    case Drain =>
      if s.consumer.i < |s.buffer| {
        MoveFirst(s.errors, s.buffer);
      }
    case _ =>
  }

  lemma ReceiveKeepsUnsent<V, E>(script: Script<V, E>, cap: nat, s: State<V, E>)
    requires s.pos <= |script.events| && Enabled(script, cap, s, Receive)
    ensures var s' := Apply(script, cap, s, Receive);
      s'.pos <= |script.events| && Unsent(script, s') == Unsent(script, s)
  {
    if s.pos < |script.events| {
      assert script.events[s.pos..][1..] == script.events[s.pos + 1..];
    } else {
      assert script.events[s.pos..] == [];
    }
  }

  lemma MoveMiddle<E>(errors: seq<E>, buffer: seq<E>, e: E, rest: seq<E>)
    ensures errors + (buffer + [e]) + rest == errors + buffer + ([e] + rest)
  {
  }

  lemma MoveFirst<E>(errors: seq<E>, buffer: seq<E>)
    requires buffer != []
    ensures errors + [buffer[0]] + buffer[1..] == errors + buffer
  {
    assert buffer == [buffer[0]] + buffer[1..];
  }

  lemma ExpectationKept<V, E>(script: Script<V, E>, cap: nat, s: State<V, E>, step: Step)
    requires Invariant(script, cap, s) && Enabled(script, cap, s, step)
    ensures var s' := Apply(script, cap, s, step);
      s'.pos <= |script.events| && Expected(script, s') == Expected(script, s)
  {
    if step.Receive? && s.pos < |script.events| {
      assert script.events[s.pos..][1..] == script.events[s.pos + 1..];
    }
  }

  lemma StepKeepsInvariant<V, E>(script: Script<V, E>, cap: nat, s: State<V, E>, step: Step)
    requires Invariant(script, cap, s) && Enabled(script, cap, s, step)
    ensures Invariant(script, cap, Apply(script, cap, s, step))
  {
    ErrorsConserved(script, cap, s, step);
    ExpectationKept(script, cap, s, step);
  }

  // ----- progress -----

  /** An upper bound on the steps still to come. */
  function Work<V, E>(script: Script<V, E>, s: State<V, E>): nat
    requires s.pos <= |script.events|
  {
    var rest := 3 * (|script.events| - s.pos);
    var producer := match s.producer
      case AtRecv => rest + 4
      case SendingResult(_) => rest + 5
      case SendingError(_, last) => if last then 3 else rest + 6
      case Closing => 1
      case Finished => 0;
    var consumer := match s.consumer case Selecting => 2 case Draining(_) => 1 case Returned(_) => 0;
    producer + consumer + |s.buffer|
  }

  lemma StepDoesWork<V, E>(script: Script<V, E>, cap: nat, s: State<V, E>, step: Step)
    requires Invariant(script, cap, s) && Enabled(script, cap, s, step)
    ensures var s' := Apply(script, cap, s, step);
      s'.pos <= |script.events| && Work(script, s') < Work(script, s)
  {
  }

  /** The pair never deadlocks: while the consumer has not returned some step is possible. */
  lemma NoDeadlock<V, E>(script: Script<V, E>, cap: nat, s: State<V, E>)
    requires Invariant(script, cap, s) && cap > 0
    ensures (exists step :: Enabled(script, cap, s, step)) <==> !s.consumer.Returned?
  {
    if !s.consumer.Returned? {
      var step :=
        if s.consumer.Draining? then Drain
        else if s.buffer != [] then TakeError
        else match s.producer
             case AtRecv => Receive
             case SendingResult(_) => Handover
             case SendingError(_, _) => PutError
             case Closing => CloseResults
             case Finished => SeeClosed;
      assert Enabled(script, cap, s, step);
    }
  }

  // ----- whole runs -----

  ghost predicate Possible<V, E>(script: Script<V, E>, cap: nat, s: State<V, E>, steps: seq<Step>)
    decreases steps
  {
    steps == [] ||
    (Enabled(script, cap, s, steps[0]) && Possible(script, cap, Apply(script, cap, s, steps[0]), steps[1..]))
  }

  ghost function Exec<V, E>(script: Script<V, E>, cap: nat, s: State<V, E>, steps: seq<Step>): State<V, E>
    requires Possible(script, cap, s, steps)
    decreases steps
  {
    if steps == [] then s else Exec(script, cap, Apply(script, cap, s, steps[0]), steps[1..])
  }

  lemma {:induction false} ExecKeepsInvariant<V, E>(script: Script<V, E>, cap: nat, s: State<V, E>, steps: seq<Step>)
    requires Invariant(script, cap, s) && Possible(script, cap, s, steps)
    ensures var s' := Exec(script, cap, s, steps);
      Invariant(script, cap, s') && Work(script, s') + |steps| <= Work(script, s)
    decreases steps
  {
    if steps != [] {
      StepKeepsInvariant(script, cap, s, steps[0]);
      StepDoesWork(script, cap, s, steps[0]);
      ExecKeepsInvariant(script, cap, Apply(script, cap, s, steps[0]), steps[1..]);
    }
  }

  ghost predicate Complete<V, E>(script: Script<V, E>, cap: nat, steps: seq<Step>) {
    && Possible(script, cap, Initial<V, E>(), steps)
    && !exists step :: Enabled(script, cap, Exec(script, cap, Initial<V, E>(), steps), step)
  }

  /** With the one-slot error channel actually used: every run is finite, and a run that cannot be
      continued has both processes at their end, the consumer with the last result and with every
      error in order. */
  lemma RunsDeliverEverything<V, E>(script: Script<V, E>, steps: seq<Step>)
    requires Possible(script, 1, Initial<V, E>(), steps)
    ensures |steps| <= 3 * |script.events| + 6
    ensures Complete(script, 1, steps) ==>
      var s := Exec(script, 1, Initial<V, E>(), steps);
      s.consumer.Returned? && s.producer.Finished?
      && s.latest == Last(None, script.events) && s.errors == AllErrors(script)
  {
    InitialHolds(script, 1);
    ExecKeepsInvariant(script, 1, Initial<V, E>(), steps);
    var s := Exec(script, 1, Initial<V, E>(), steps);
    NoDeadlock(script, 1, s);
    if Complete(script, 1, steps) {
      assert script.events[s.pos..] == [];
      assert s.buffer == [];
    }
  }

  /** The error a caller sees: nil for none, the error itself for one, a list otherwise. */
  datatype Returned<+E> = NoError | One(error: E) | Many(errors: seq<E>)

  function ToError<E>(errors: seq<E>): (r: Returned<E>)
    ensures r.NoError? <==> errors == []
    ensures r.One? ==> errors == [r.error]
    ensures r.Many? ==> errors == r.errors && |errors| > 1
  {
    if |errors| == 0 then NoError else if |errors| == 1 then One(errors[0]) else Many(errors)
  }

  /** Whatever the interleaving, the caller sees an error exactly when the stream had one. */
  lemma NilErrorIff<V, E>(script: Script<V, E>, steps: seq<Step>)
    requires Complete(script, 1, steps)
    ensures ToError(Exec(script, 1, Initial<V, E>(), steps).errors).NoError? <==>
            script.ending.Eof? && forall e | e in script.events :: !e.Failure?
  {
    RunsDeliverEverything(script, steps);
    NoFailuresIff(script.events);
  }

  lemma {:induction false} NoFailuresIff<V, E>(events: seq<Event<V, E>>)
    ensures Failures(events) == [] <==> forall e | e in events :: !e.Failure?
  {
    if events != [] {
      NoFailuresIff(events[1..]);
      assert forall e :: e in events <==> e == events[0] || e in events[1..];
    }
  }

  // ----- the same, over the messages received -----

  function RecvEnding(ending: Ending<string>): Ending<StreamError> {
    match ending case Eof => Eof case Broken(cause) => Broken(RecvFailed(cause))
  }

  function BroadcastScript(responses: seq<BroadcastResponse>, ending: Ending<string>): Script<int, StreamError> {
    Script(seq(|responses|, i requires 0 <= i < |responses| => BroadcastEvent(responses[i])), RecvEnding(ending))
  }

  function DeliverScript<B>(replies: seq<DeliverResponse<B>>, ending: Ending<string>): Script<B, StreamError> {
    Script(seq(|replies|, i requires 0 <= i < |replies| => DeliverEvent(replies[i])), RecvEnding(ending))
  }

  /** One error for each response that is not a success, in order. */
  function Refusals(responses: seq<BroadcastResponse>): seq<StreamError> {
    if responses == [] then []
    else
      var r := responses[0];
      (if r.status == SUCCESS then [] else [ServerStatus(r.status, r.info)]) + Refusals(responses[1..])
  }

  predicate IsErrorStatus<B>(r: DeliverResponse<B>) {
    r.StatusReply? && r.status != SUCCESS
  }

  /** One error for each status reply that is not a success, in order. */
  function ErrorStatuses<B>(replies: seq<DeliverResponse<B>>): seq<StreamError> {
    if replies == [] then []
    else
      var r := replies[0];
      (if IsErrorStatus(r) then [ServerStatus(r.status, "error status from ordering service")] else [])
      + ErrorStatuses(replies[1..])
  }

  /** Each refusal is reported with its status and its text, as often as it came. */
  lemma {:induction false} RefusalsAre(responses: seq<BroadcastResponse>, status: int, info: string)
    ensures multiset(Refusals(responses))[ServerStatus(status, info)] ==
            if status == 200 then 0 else multiset(responses)[BroadcastResponse(status, info)]
    ensures |Refusals(responses)| <= |responses|
  {
    if responses != [] {
      RefusalsAre(responses[1..], status, info);
      assert responses == [responses[0]] + responses[1..];
    }
  }

  /** So is each error status of a deliver stream. */
  lemma {:induction false} ErrorStatusesAre<B>(replies: seq<DeliverResponse<B>>, status: int)
    ensures multiset(ErrorStatuses(replies))[ServerStatus(status, "error status from ordering service")] ==
            if status == 200 then 0 else multiset(replies)[StatusReply(status)]
  {
    if replies != [] {
      ErrorStatusesAre(replies[1..], status);
      assert replies == [replies[0]] + replies[1..];
    }
  }

  lemma {:induction false} RefusalsFail(responses: seq<BroadcastResponse>, ending: Ending<string>)
    ensures Failures(BroadcastScript(responses, ending).events) == Refusals(responses)
  {
    if responses != [] {
      RefusalsFail(responses[1..], ending);
      assert BroadcastScript(responses, ending).events[1..] == BroadcastScript(responses[1..], ending).events;
    }
  }

  lemma {:induction false} ErrorStatusesFail<B>(replies: seq<DeliverResponse<B>>, ending: Ending<string>)
    ensures Failures(DeliverScript(replies, ending).events) == ErrorStatuses(replies)
  {
    if replies != [] {
      ErrorStatusesFail(replies[1..], ending);
      assert DeliverScript(replies, ending).events[1..] == DeliverScript(replies[1..], ending).events;
    }
  }

  lemma {:induction false} LastWithout<V, E>(before: Option<V>, events: seq<Event<V, E>>)
    requires forall i | 0 <= i < |events| :: !events[i].Result?
    ensures Last(before, events) == before
  {
    if events != [] {
      LastWithout(before, events[1..]);
    }
  }

  lemma {:induction false} LastAt<V, E>(before: Option<V>, events: seq<Event<V, E>>, i: nat)
    requires i < |events| && events[i].Result? && forall j | i < j < |events| :: !events[j].Result?
    ensures Last(before, events) == Some(events[i].value)
    decreases i
  {
    var next := if events[0].Result? then Some(events[0].value) else before;
    if i == 0 {
      LastWithout(next, events[1..]);
    } else {
      LastAt(next, events[1..], i - 1);
    }
  }

  /** The zero value of a status, which is returned when no response was a success. */
  const UNKNOWN_STATUS := 0

  function StatusOf(latest: Option<int>): int {
    if latest.Some? then latest.value else UNKNOWN_STATUS
  }

  /** SendBroadcast, for every sequence of responses and every interleaving: no error iff the stream
      ends regularly and every response has status 200; the status is 200 iff some response has it;
      and the errors are those of the other responses, in order, then that of a broken stream. */
  lemma BroadcastOutcome(responses: seq<BroadcastResponse>, ending: Ending<string>, steps: seq<Step>)
    requires Complete(BroadcastScript(responses, ending), 1, steps)
    ensures var s := Exec(BroadcastScript(responses, ending), 1, Initial<int, StreamError>(), steps);
      && (ToError(s.errors).NoError? <==> ending.Eof? && forall r | r in responses :: r.status == SUCCESS)
      && s.errors == Refusals(responses) + EndingErrors(RecvEnding(ending))
      && (StatusOf(s.latest) == SUCCESS <==> exists r | r in responses :: r.status == SUCCESS)
      && StatusOf(s.latest) in {SUCCESS, UNKNOWN_STATUS}
  {
    var script := BroadcastScript(responses, ending);
    RunsDeliverEverything(script, steps);
    RefusalsFail(responses, ending);
    NoRefusalsIff(responses);
    LastSuccess(script.events);
    if r :| r in responses && r.status == SUCCESS {
      var i :| 0 <= i < |responses| && responses[i] == r;
      assert script.events[i] == Result(SUCCESS);
    }
  }

  lemma {:induction false} NoRefusalsIff(responses: seq<BroadcastResponse>)
    ensures Refusals(responses) == [] <==> forall r | r in responses :: r.status == SUCCESS
  {
    if responses != [] {
      NoRefusalsIff(responses[1..]);
      assert forall r :: r in responses <==> r == responses[0] || r in responses[1..];
    }
  }

  lemma LastSuccess(events: seq<Event<int, StreamError>>)
    requires forall i | 0 <= i < |events| && events[i].Result? :: events[i].value == SUCCESS
    ensures Last(None, events) == if exists i | 0 <= i < |events| :: events[i].Result? then Some(SUCCESS) else None
  {
    if exists i | 0 <= i < |events| :: events[i].Result? {
      var i := LastIndex(events);
      LastAt(None, events, i);
    } else {
      LastWithout(None, events);
    }
  }

  lemma {:induction false} LastIndex<V, E>(events: seq<Event<V, E>>) returns (i: nat)
    requires exists k | 0 <= k < |events| :: events[k].Result?
    ensures i < |events| && events[i].Result? && forall j | i < j < |events| :: !events[j].Result?
    decreases |events|
  {
    i := |events| - 1;
    if !events[i].Result? {
      i := LastIndex(events[..i]);
    }
  }

  /** SendDeliver and its consumer: no error iff the stream ends regularly and every status reply is a
      success; the result is the last block, or nil when there is none. */
  lemma DeliverOutcome<B>(replies: seq<DeliverResponse<B>>, ending: Ending<string>, steps: seq<Step>)
    requires Complete(DeliverScript(replies, ending), 1, steps)
    ensures var s := Exec(DeliverScript(replies, ending), 1, Initial<B, StreamError>(), steps);
      && (ToError(s.errors).NoError? <==> ending.Eof? && forall r | r in replies :: !IsErrorStatus(r))
      && s.errors == ErrorStatuses(replies) + EndingErrors(RecvEnding(ending))
      && (forall i | 0 <= i < |replies| && replies[i].BlockReply? && (forall j | i < j < |replies| :: !replies[j].BlockReply?) ::
            s.latest == Some(replies[i].block))
      && (s.latest.None? <==> forall r | r in replies :: !r.BlockReply?)
  {
    var script := DeliverScript(replies, ending);
    RunsDeliverEverything(script, steps);
    ErrorStatusesFail(replies, ending);
    NoErrorStatusIff(replies);
    forall i | 0 <= i < |replies| && replies[i].BlockReply? && (forall j | i < j < |replies| :: !replies[j].BlockReply?)
      ensures Last(None, script.events) == Some(replies[i].block)
    {
      assert forall j | i < j < |replies| :: !script.events[j].Result?;
      LastAt(None, script.events, i);
    }
    if exists k | 0 <= k < |replies| :: replies[k].BlockReply? {
      var k :| 0 <= k < |replies| && replies[k].BlockReply?;
      assert script.events[k].Result?;
      var i := LastIndex(script.events);
      LastAt(None, script.events, i);
    } else {
      LastWithout(None, script.events);
    }
  }

  lemma {:induction false} NoErrorStatusIff<B>(replies: seq<DeliverResponse<B>>)
    ensures ErrorStatuses(replies) == [] <==> forall r | r in replies :: !IsErrorStatus(r)
  {
    if replies != [] {
      NoErrorStatusIff(replies[1..]);
      assert forall r :: r in replies <==> r == replies[0] || r in replies[1..];
    }
  }

  // ----- the drain loop -----

  /** The drain loop on its own.  Its bound is the channel's length, which shrinks as it runs, so it
      takes only half of what is buffered, rounded up. */
  method DrainErrors<E>(errs: seq<E>, err: seq<E>) returns (left: seq<E>, all: seq<E>)
    ensures all == err + errs[..(|errs| + 1) / 2]
    ensures left == errs[(|errs| + 1) / 2..]
  {
    left, all := errs, err;
    var i := 0;
    while i < |left|
      invariant 0 <= i <= |errs| && left == errs[i..] && all == err + errs[..i]
      invariant 2 * i <= |errs| + 1
      decreases |left|
    {
      all := all + [left[0]];
      left := left[1..];
      i := i + 1;
    }
  }

  /** The consumer misses no error in any run exactly because the error channel has one slot. */
  lemma DrainsCompletelyIff<V, E>(cap: nat, e: E)
    requires cap > 0
    ensures cap == 1 <==>
      forall script: Script<V, E>, steps | Complete(script, cap, steps) ::
        Exec(script, cap, Initial<V, E>(), steps).errors == AllErrors(script)
  {
    if cap == 1 {
      forall script: Script<V, E>, steps | Complete(script, cap, steps)
        ensures Exec(script, cap, Initial<V, E>(), steps).errors == AllErrors(script)
      {
        RunsDeliverEverything(script, steps);
      }
    } else {
      var script, steps := LostError<V, E>(cap, e);
      assert Complete(script, cap, steps);
    }
  }

  /** Two errors that both wait in the channel when the stream closes: the second is lost. */
  lemma LostError<V, E>(cap: nat, e: E) returns (script: Script<V, E>, steps: seq<Step>)
    requires cap > 1
    ensures Complete(script, cap, steps)
    ensures Exec(script, cap, Initial<V, E>(), steps).errors == [e] && AllErrors(script) == [e, e]
  {
    script := Script([Failure(e), Failure(e)], Eof);
    assert AllErrors(script) == [e, e] by {
      var one: seq<Event<V, E>> := [Failure(e)];
      assert one[1..] == [] && Failures(one) == [e];
      assert script.events[1..] == one;
    }
    var full := State(2, Closing, [e, e], false, Selecting, None, []);
    steps := LosesSecond(script, cap, full, e);
    steps := FillsChannel(script, cap, full, steps);
  }

  lemma FillsChannel<V, E>(script: Script<V, E>, cap: nat, full: State<V, E>, rest: seq<Step>) returns (steps: seq<Step>)
    requires cap > 1 && script.ending.Eof? && |script.events| == 2 && script.events[0].Failure? && script.events[1].Failure?
    requires full == State(2, Closing, [script.events[0].error, script.events[1].error], false, Selecting, None, [])
    requires Possible(script, cap, full, rest)
    ensures Possible(script, cap, Initial<V, E>(), steps)
    ensures Exec(script, cap, Initial<V, E>(), steps) == Exec(script, cap, full, rest)
  {
    var s1 := Apply(script, cap, Initial<V, E>(), Receive);
    var s2 := Apply(script, cap, s1, PutError);
    var s3 := Apply(script, cap, s2, Receive);
    var s4 := Apply(script, cap, s3, PutError);
    assert Apply(script, cap, s4, Receive) == full;
    Prepend(script, cap, s4, Receive, rest);
    steps := [Receive] + rest;
    Prepend(script, cap, s3, PutError, steps);
    steps := [PutError] + steps;
    Prepend(script, cap, s2, Receive, steps);
    steps := [Receive] + steps;
    Prepend(script, cap, s1, PutError, steps);
    steps := [PutError] + steps;
    Prepend(script, cap, Initial<V, E>(), Receive, steps);
    steps := [Receive] + steps;
  }

  lemma LosesSecond<V, E>(script: Script<V, E>, cap: nat, full: State<V, E>, e: E) returns (steps: seq<Step>)
    requires full == State(2, Closing, [e, e], false, Selecting, None, [])
    ensures Possible(script, cap, full, steps)
    ensures var s := Exec(script, cap, full, steps);
      s.errors == [e] && s.consumer.Returned? && s.producer.Finished?
  {
    var s1 := Apply(script, cap, full, CloseResults);
    var s2 := Apply(script, cap, s1, SeeClosed);
    var s3 := Apply(script, cap, s2, Drain);
    var s4 := Apply(script, cap, s3, Drain);
    steps := [Drain];
    Prepend(script, cap, s3, Drain, []);
    Prepend(script, cap, s2, Drain, steps);
    steps := [Drain] + steps;
    Prepend(script, cap, s1, SeeClosed, steps);
    steps := [SeeClosed] + steps;
    Prepend(script, cap, full, CloseResults, steps);
    steps := [CloseResults] + steps;
  }

  lemma Prepend<V, E>(script: Script<V, E>, cap: nat, s: State<V, E>, step: Step, steps: seq<Step>)
    requires Enabled(script, cap, s, step) && Possible(script, cap, Apply(script, cap, s, step), steps)
    ensures Possible(script, cap, s, [step] + steps)
    ensures Exec(script, cap, s, [step] + steps) == Exec(script, cap, Apply(script, cap, s, step), steps)
  {
    assert ([step] + steps)[1..] == steps;
  }

  /** The state a deliver request starts in when the connection or the stream could not be opened:
      one error buffered, the result channel closed, and no producer. */
  function FailedDeliver<V, E>(e: E): State<V, E> {
    State(0, Finished, [e], true, Selecting, None, [])
  }

  /** From there too the consumer always returns, with that error and no block. */
  lemma FailedDeliverIsReported<V, E>(e: E, steps: seq<Step>)
    requires Possible(Script([], Broken(e)), 1, FailedDeliver<V, E>(e), steps)
    ensures |steps| <= 3
    ensures var script := Script([], Broken(e));
      var s := Exec(script, 1, FailedDeliver<V, E>(e), steps);
      (exists step :: Enabled(script, 1, s, step)) || (s.consumer.Returned? && s.errors == [e] && s.latest.None?)
  {
    var script: Script<V, E> := Script([], Broken(e));
    var start := FailedDeliver<V, E>(e);
    assert Unsent(script, start) == [] && [] + [e] + [] == [e] == AllErrors(script);
    assert Invariant(script, 1, start);
    ExecKeepsInvariant(script, 1, start, steps);
    var s := Exec(script, 1, start, steps);
    NoDeadlock(script, 1, s);
    if s.consumer.Returned? {
      assert s.buffer == [] && Unsent(script, s) == [];
      assert s.errors + [] + [] == s.errors;
    }
  }

  // ----- trying the orderers one by one -----

  datatype Outcome<+R, +E> = Ok(value: R) | Err(error: E) | OrderersNotSet

  /** broadcastEnvelope and SendPayload: for every random order the call succeeds iff some orderer
      accepts, with the answer of the first that does; otherwise it fails with the last error. */
  method TryOrderers<R, E>(n: nat, order: seq<nat>, send: nat -> Outcome<R, E>) returns (r: Outcome<R, E>)
    requires Permutes(order, n)
    requires forall i | 0 <= i < n :: !send(i).OrderersNotSet?
    ensures r.OrderersNotSet? <==> n == 0
    ensures r.Ok? <==> exists i | 0 <= i < n :: send(i).Ok?
    ensures r.Ok? ==> exists k | 0 <= k < n ::
              send(order[k]) == r && forall j | 0 <= j < k :: send(order[j]).Err?
    ensures r.Err? ==> r == send(order[n - 1])
  {
    if n == 0 {
      return OrderersNotSet;
    }
    var k := 0;
    r := OrderersNotSet;
    while k < n
      invariant 0 <= k <= n
      invariant forall j | 0 <= j < k :: send(order[j]).Err?
      invariant k > 0 ==> r == send(order[k - 1])
    {
      assert order[k] in order;
      r := send(order[k]);
      if r.Ok? {
        assert send(order[k]) == r;
        return;
      }
      k := k + 1;
    }
    forall i | 0 <= i < n
      ensures !send(i).Ok?
    {
      assert i in order;
      var j :| 0 <= j < |order| && order[j] == i;
      assert send(order[j]).Err?;
    }
  }
}
