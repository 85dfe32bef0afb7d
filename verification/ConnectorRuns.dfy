/**
 The connector as a system of concurrent callers, janitors and one closer.  A step is one critical
 section, one channel operation or one atomic instruction; a run is any interleaving of steps.
 */
module ConnectorRuns {
  import opened Collections
  import opened ConnectionCache

  /** How far one dial, and the handle it yields, has come.  `Waiting` is between the locked part
      and the wait for readiness, `Opened` between readiness and the start of the janitor, `Live` is
      a handle in a caller's hands, `Releasing` one whose once-only flag is set but whose release
      has not reached the connector. */
  datatype Stage = Waiting | Opened | Live | Releasing | Gone

  datatype Use<!C> = Use(conn: C, stage: Stage)

  /** Progress of `Close`.  It holds the lock while `Flushed`: the connections are shut and the
      channels closed, but `janitorDone` is not yet nil. */
  datatype Phase = NotClosing | TokenTaken | AwaitingJanitor | Awaited | Flushed | Closed

  /** The channel `janitorClosed` (its buffered tokens and whether the channels have been closed), the
      one slot of `janitorDone`, and the janitors: about to reach their select, waiting there for a
      tick or for `janitorDone`, waiting there after `janitorDone` was nil, which is for a tick only,
      or about to send their exit token. */
  datatype Janitors = Janitors(
    tokens: nat, channelClosed: bool, stopSent: bool,
    starting: nat, running: nat, deaf: nat, exiting: nat, panicked: bool)

  function Alive(j: Janitors): nat {
    j.starting + j.running + j.deaf + j.exiting
  }

  datatype System<!C(==)> = System(
    cache: Cache<C>, janitors: Janitors, phase: Phase, uses: map<nat, Use<C>>)

  datatype Step<!C> =
    | DialStart(use: nat, target: string, dialed: Option<C>)
    | DialReady(use: nat)
    | DialReturn(use: nat)
    | DialFail(use: nat, now: int)
    | HandleClose(use: nat)
    | HandleRelease(use: nat, now: int)
    | ConnectionDies(conn: C)
    | JanitorSelect
    | JanitorTick(now: int, idle: int, hears: bool)
    | JanitorSendToken
    | JanitorStop
    | CloseSelect
    | CloseAwait
    | CloseFlush
    | CloseFinish

  ghost function Initial<C>(): (s: System<C>)
    ensures Invariant(s)
  {
    System(Empty(), Janitors(1, false, false, 0, 0, 0, 0, false), NotClosing, map[])
  }

  /** A receive on `janitorClosed` succeeds when a token is there or the channel is closed. */
  function EnsureStarted(j: Janitors): Janitors {
    if j.tokens > 0 then j.(tokens := j.tokens - 1, starting := j.starting + 1)
    else if j.channelClosed then j.(starting := j.starting + 1)
    else j
  }

  /** A janitor reaches its select, which reads `janitorDone`. */
  function Selected(j: Janitors, doneIsNil: bool): Janitors
    requires j.starting > 0
  {
    if doneIsNil then j.(starting := j.starting - 1, deaf := j.deaf + 1)
    else j.(starting := j.starting - 1, running := j.running + 1)
  }

  /** A tick that leaves nothing to watch sends its janitor to its exit, any other back to its select. */
  function Ticked(j: Janitors, hears: bool, nothingLeft: bool): Janitors
    requires if hears then j.running > 0 else j.deaf > 0
  {
    var rest := if hears then j.(running := j.running - 1) else j.(deaf := j.deaf - 1);
    if nothingLeft then rest.(exiting := rest.exiting + 1) else rest.(starting := rest.starting + 1)
  }

  /** The exit send; on a closed channel it panics. */
  function TokenSent(j: Janitors): Janitors
    requires j.exiting > 0
  {
    if j.channelClosed then j.(panicked := true) else j.(tokens := j.tokens + 1, exiting := j.exiting - 1)
  }

  /** The select at the start of `Close`: it takes the token, or else tells the janitor to stop. */
  function CloseSelected(j: Janitors): Janitors {
    if j.tokens > 0 then j.(tokens := j.tokens - 1) else j.(stopSent := true)
  }

  predicate At<C>(s: System<C>, use: nat, stage: Stage) {
    use in s.uses && s.uses[use].stage == stage
  }

  function Moved<C>(s: System<C>, use: nat, stage: Stage): System<C>
    requires use in s.uses
  {
    s.(uses := s.uses[use := Use(s.uses[use].conn, stage)])
  }

  predicate NeedsLock<C>(step: Step<C>) {
    step.DialStart? || step.DialFail? || step.HandleRelease? || step.JanitorTick?
  }

  predicate Enabled<C>(s: System<C>, step: Step<C>) {
    && !s.janitors.panicked
    && (NeedsLock(step) ==> !s.phase.Flushed?)
    && match step
       case DialStart(use, target, dialed) =>
         use !in s.uses && (dialed.Some? ==> dialed.value !in s.cache.records)
       case DialReady(use) => At(s, use, Waiting) && s.uses[use].conn !in s.cache.shut
       case DialReturn(use) => At(s, use, Opened)
       case DialFail(use, now) => At(s, use, Waiting)
       case HandleClose(use) => use in s.uses && s.uses[use].stage in {Live, Releasing, Gone}
       case HandleRelease(use, now) => At(s, use, Releasing)
       case ConnectionDies(c) => c in s.cache.records
       case JanitorSelect => s.janitors.starting > 0
       case JanitorTick(now, idle, hears) => if hears then s.janitors.running > 0 else s.janitors.deaf > 0
       case JanitorSendToken =>
         s.janitors.exiting > 0 && (s.janitors.channelClosed || s.janitors.tokens == 0)
       case JanitorStop => s.janitors.running > 0 && (s.janitors.stopSent || s.janitors.channelClosed)
       case CloseSelect => s.phase == NotClosing
       case CloseAwait => s.phase == AwaitingJanitor && Alive(s.janitors) == 0
       case CloseFlush => s.phase == TokenTaken || s.phase == Awaited
       case CloseFinish => s.phase == Flushed
  }

  ghost function Apply<C>(s: System<C>, step: Step<C>): System<C>
    requires Invariant(s) && Enabled(s, step)
  {
    match step
    case DialStart(use, target, dialed) =>
      var (cache, got) := Create(s.cache, target, dialed);
      var j := if Purges(s.cache, target) then EnsureStarted(s.janitors) else s.janitors;
      var s' := s.(cache := cache, janitors := j);
      if got.Some? then s'.(uses := s.uses[use := Use(got.value, Waiting)]) else s'
    case DialReady(use) => Moved(s, use, Opened)
    case DialReturn(use) => Moved(s.(janitors := EnsureStarted(s.janitors)), use, Live)
    case DialFail(use, now) => Moved(s.(cache := Abandon(s.cache, s.uses[use].conn, now)), use, Gone)
    case HandleClose(use) => if At(s, use, Live) then Moved(s, use, Releasing) else s
    case HandleRelease(use, now) =>
      var c := s.uses[use].conn;
      var j := if !s.cache.closed && c in s.cache.index then EnsureStarted(s.janitors) else s.janitors;
      Moved(s.(cache := Release(s.cache, c, now), janitors := j), use, Gone)
    case ConnectionDies(c) => s.(cache := s.cache.(shut := s.cache.shut + {c}))
    case JanitorSelect => s.(janitors := Selected(s.janitors, s.cache.closed))
    case JanitorTick(now, idle, hears) =>
      var cache := Sweep(s.cache, now, idle);
      s.(cache := cache, janitors := Ticked(s.janitors, hears, cache.index == {}))
    case JanitorSendToken => s.(janitors := TokenSent(s.janitors))
    case JanitorStop =>
      var j := s.janitors;
      s.(janitors := j.(stopSent := false, running := j.running - 1))
    case CloseSelect =>
      s.(janitors := CloseSelected(s.janitors), phase := if s.janitors.tokens > 0 then TokenTaken else AwaitingJanitor)
    case CloseAwait => s.(phase := Awaited)
    case CloseFlush =>
      s.(cache := Flush(s.cache), janitors := s.janitors.(channelClosed := true), phase := Flushed)
    case CloseFinish => s.(cache := s.cache.(closed := true), phase := Closed)
  }

  // ----- the invariant -----

  /** Callers that obtained `c` and have not yet given it back. */
  ghost function Holders<C>(uses: map<nat, Use<C>>, c: C): set<nat> {
    set u | u in uses && uses[u].conn == c && !uses[u].stage.Gone?
  }

  /** A connection in the index counts its holders exactly.  A removed one may overcount, because
      releases of removed connections are not recorded. */
  ghost predicate Counted<C>(s: System<C>) {
    && (forall u | u in s.uses :: s.uses[u].conn in s.cache.records)
    && (forall c | c in s.cache.records :: CountedAt(s, c))
  }

  ghost predicate CountedAt<C>(s: System<C>, c: C)
    requires c in s.cache.records
  {
    && s.cache.records[c].open >= |Holders(s.uses, c)|
    && (!s.cache.closed && c in s.cache.index ==> s.cache.records[c].open == |Holders(s.uses, c)|)
  }

  /** One token exists, as a buffered value, a janitor, or the closer's own.  The closer's own is
      the token it took from the channel or the janitor it stopped. */
  ghost predicate OneToken<C>(s: System<C>) {
    var j := s.janitors;
    match s.phase
    case NotClosing => j.tokens + Alive(j) == 1 && !j.stopSent
    case TokenTaken => j.tokens + Alive(j) == 0 && !j.stopSent
    case AwaitingJanitor => j.tokens + Alive(j) == if j.stopSent then 1 else 0
    case Awaited => j.tokens + Alive(j) == if j.stopSent then 1 else 0
    case _ => true
  }

  /** What the flags of the channels say about each other and about the janitors. */
  ghost predicate FlagsAgree<C>(s: System<C>) {
    && s.cache.closed == s.phase.Closed?
    && s.janitors.channelClosed == (s.phase.Flushed? || s.phase.Closed?)
    && (s.janitors.channelClosed ==> s.cache.records.Keys <= s.cache.shut)
    && (s.janitors.panicked ==> s.janitors.channelClosed)
    && (s.janitors.deaf > 0 ==> s.cache.closed)
  }

  ghost predicate Invariant<C>(s: System<C>) {
    && Sound(s.cache)
    && Counted(s)
    && OneToken(s)
    && FlagsAgree(s)
  }

  lemma HoldersMoved<C>(uses: map<nat, Use<C>>, u: nat, use: Use<C>, c: C)
    ensures var after := Holders(uses[u := use], c);
            var counts := use.conn == c && !use.stage.Gone?;
            var counted := u in Holders(uses, c);
            |after| == |Holders(uses, c)| - (if counted then 1 else 0) + (if counts then 1 else 0)
  {
    var before, after := Holders(uses, c), Holders(uses[u := use], c);
    OtherHolders(uses, u, use, c);
    Without(before, u);
    Without(after, u);
  }

  lemma OtherHolders<C>(uses: map<nat, Use<C>>, u: nat, use: Use<C>, c: C)
    ensures Holders(uses[u := use], c) - {u} == Holders(uses, c) - {u}
    ensures u in Holders(uses[u := use], c) <==> use.conn == c && !use.stage.Gone?
  {
  }

  lemma Without(s: set<nat>, u: nat)
    ensures |s| == |s - {u}| + if u in s then 1 else 0
  {
    if u !in s {
      assert s - {u} == s;
    }
  }

  lemma StartKeepsCount<C>(s: System<C>, use: nat, target: string, dialed: Option<C>)
    requires Invariant(s) && Enabled(s, DialStart(use, target, dialed))
    ensures Counted(Apply(s, DialStart(use, target, dialed)))
  {
    var (cache, got) := Create(s.cache, target, dialed);
    var s' := Apply(s, DialStart(use, target, dialed));
    if got.Some? {
      forall c | c in cache.records
        ensures CountedAt(s', c)
      {
        HoldersMoved(s.uses, use, Use(got.value, Waiting), c);
        if c !in s.cache.records {
          assert Holders(s.uses, c) == {};
        }
      }
    }
  }

  /** A caller that moves on without giving its connection back. */
  lemma StayKeepsCount<C>(s: System<C>, step: Step<C>)
    requires Invariant(s) && Enabled(s, step) && (step.DialReady? || step.DialReturn? || step.HandleClose?)
    ensures Counted(Apply(s, step))
  {
    var s' := Apply(s, step);
    forall c | c in s'.cache.records
      ensures CountedAt(s', c)
    {
      assert CountedAt(s, c);
      assert Holders(s'.uses, c) == Holders(s.uses, c);
    }
  }

  /** A caller that gives its connection back. */
  lemma LeaveKeepsCount<C>(s: System<C>, step: Step<C>)
    requires Invariant(s) && Enabled(s, step) && (step.DialFail? || step.HandleRelease?)
    ensures Counted(Apply(s, step))
  {
    var s' := Apply(s, step);
    forall c | c in s'.cache.records
      ensures CountedAt(s', c)
    {
      assert CountedAt(s, c);
      HoldersMoved(s.uses, step.use, Use(s.uses[step.use].conn, Gone), c);
    }
  }

  lemma CountKept<C>(s: System<C>, step: Step<C>)
    requires Invariant(s) && Enabled(s, step)
    ensures Counted(Apply(s, step))
  {
    match step
    case DialStart(use, target, dialed) => StartKeepsCount(s, use, target, dialed);
    case DialReady(_) => StayKeepsCount(s, step);
    case DialReturn(_) => StayKeepsCount(s, step);
    case DialFail(_, _) => LeaveKeepsCount(s, step);
    case HandleClose(_) => StayKeepsCount(s, step);
    case HandleRelease(_, _) => LeaveKeepsCount(s, step);
    case _ =>
  }

  lemma SoundKept<C>(s: System<C>, step: Step<C>)
    requires Invariant(s) && Enabled(s, step)
    ensures Sound(Apply(s, step).cache)
  {
    match step
    case DialStart(use, target, dialed) => CreateSound(s.cache, target, dialed);
    case DialFail(use, now) => AbandonSound(s.cache, s.uses[use].conn, now);
    case JanitorTick(now, idle, _) =>
      RemoveAllSound(s.cache, set c | c in s.cache.index && Expired(s.cache, c, now, idle));
    case _ =>
  }

  predicate OfJanitor<C>(step: Step<C>) {
    step.JanitorSelect? || step.JanitorTick? || step.JanitorSendToken? || step.JanitorStop?
  }

  predicate OfClose<C>(step: Step<C>) {
    step.CloseSelect? || step.CloseAwait? || step.CloseFlush? || step.CloseFinish?
  }

  /** Callers leave the janitors alone or start one. */
  lemma CallersOnlyStart<C>(s: System<C>, step: Step<C>)
    requires Invariant(s) && Enabled(s, step) && !OfJanitor(step) && !OfClose(step)
    ensures var s' := Apply(s, step);
      && s'.phase == s.phase && s'.cache.closed == s.cache.closed
      && (s'.janitors == s.janitors || s'.janitors == EnsureStarted(s.janitors))
  {
  }

  lemma TokenKept<C>(s: System<C>, step: Step<C>)
    requires Invariant(s) && Enabled(s, step)
    ensures OneToken(Apply(s, step))
  {
    if OfJanitor(step) {
      TokenKeptByJanitor(s, step);
    } else if !OfClose(step) {
      CallersOnlyStart(s, step);
    }
  }

  lemma TokenKeptByJanitor<C>(s: System<C>, step: Step<C>)
    requires Invariant(s) && Enabled(s, step) && OfJanitor(step)
    ensures OneToken(Apply(s, step))
  {
  }

  lemma FlagsKept<C>(s: System<C>, step: Step<C>)
    requires Invariant(s) && Enabled(s, step)
    ensures FlagsAgree(Apply(s, step))
  {
  }

  lemma StepKeepsInvariant<C>(s: System<C>, step: Step<C>)
    requires Invariant(s) && Enabled(s, step)
    ensures Invariant(Apply(s, step))
  {
    SoundKept(s, step);
    CountKept(s, step);
    TokenKept(s, step);
    FlagsKept(s, step);
  }

  // ----- whole runs -----

  /** `steps` can be taken one after another from `s`. */
  ghost predicate Possible<C>(s: System<C>, steps: seq<Step<C>>)
    requires Invariant(s)
    decreases steps
  {
    steps == [] ||
    (Enabled(s, steps[0]) && (StepKeepsInvariant(s, steps[0]); Possible(Apply(s, steps[0]), steps[1..])))
  }

  ghost function Exec<C>(s: System<C>, steps: seq<Step<C>>): System<C>
    requires Invariant(s) && Possible(s, steps)
    decreases steps
  {
    if steps == [] then s
    else (StepKeepsInvariant(s, steps[0]); Exec(Apply(s, steps[0]), steps[1..]))
  }

  lemma {:induction false} ExecKeepsInvariant<C>(s: System<C>, steps: seq<Step<C>>)
    requires Invariant(s) && Possible(s, steps)
    ensures Invariant(Exec(s, steps))
    decreases steps
  {
    if steps != [] {
      StepKeepsInvariant(s, steps[0]);
      ExecKeepsInvariant(Apply(s, steps[0]), steps[1..]);
    }
  }

  lemma Prepend<C>(s: System<C>, step: Step<C>, steps: seq<Step<C>>)
    requires Invariant(s) && Enabled(s, step)
    requires Invariant(Apply(s, step)) && Possible(Apply(s, step), steps)
    ensures Possible(s, [step] + steps)
    ensures Exec(s, [step] + steps) == Exec(Apply(s, step), steps)
  {
    assert ([step] + steps)[1..] == steps;
  }

  /** Reference counts are exact, the two maps agree, no connection is lost, and until `Close` begins
      exactly one token exists, so there are never two janitors and a janitor's exit send finds the
      slot free. */
  ghost predicate Safe<C>(s: System<C>) {
    && s.cache.index <= s.cache.records.Keys
    && (forall t | t in s.cache.conns ::
          s.cache.conns[t] in s.cache.index && s.cache.records[s.cache.conns[t]].target == t)
    && (forall c | c in s.cache.records :: c in s.cache.index || c in s.cache.shut)
    && (!s.cache.closed ==> forall c | c in s.cache.index :: s.cache.records[c].open == |Holders(s.uses, c)|)
    && (!s.janitors.channelClosed ==>
          && !s.janitors.panicked
          && Alive(s.janitors) <= 1
          && (s.janitors.exiting > 0 ==> s.janitors.tokens == 0))
    && (s.phase.NotClosing? ==> s.janitors.tokens + Alive(s.janitors) == 1)
  }

  lemma InvariantIsSafe<C>(s: System<C>)
    requires Invariant(s)
    ensures Safe(s)
  {
    assert forall c | c in s.cache.records :: CountedAt(s, c);
  }

  /** Every run from a new connector is safe. */
  lemma RunsAreSafe<C>(steps: seq<Step<C>>)
    requires Possible(Initial(), steps)
    ensures Safe(Exec(Initial(), steps))
  {
    ExecKeepsInvariant(Initial<C>(), steps);
    InvariantIsSafe(Exec(Initial<C>(), steps));
  }

  // ----- what a dial does -----

  /** The locked part of a dial of `target`, before the connector is closed.  A live cached connection
      is shared: it gains a user and nothing else changes.  A dead one is dropped from both maps, but
      kept on record, and a janitor is started when none is there.  When none is cached then, the new connection is filed under the target and in
      the index, with this dial as its only user.  The dial waits on what it got. */
  lemma DialOutcome<C>(s: System<C>, u: nat, target: string, dialed: Option<C>)
    requires Invariant(s) && !s.cache.closed && Enabled(s, DialStart(u, target, dialed))
    ensures var s' := Apply(s, DialStart(u, target, dialed));
      var live := target in s.cache.conns && s.cache.conns[target] !in s.cache.shut;
      var dead := if target in s.cache.conns && !live then {s.cache.conns[target]} else {};
      && s'.cache.shut == s.cache.shut
      && (dead == {} || s.janitors.tokens == 0 ==> s'.janitors.starting == s.janitors.starting)
      && (dead != {} && s.janitors.tokens > 0 ==> s'.janitors.starting == s.janitors.starting + 1)
      && (live ==>
            var c := s.cache.conns[target];
            && s'.uses == s.uses[u := Use(c, Waiting)]
            && s'.cache.conns == s.cache.conns && s'.cache.index == s.cache.index
            && s'.cache.records == s.cache.records[c := s.cache.records[c].(open := s.cache.records[c].open + 1)])
      && (!live && dialed.Some? ==>
            && s'.uses == s.uses[u := Use(dialed.value, Waiting)]
            && s'.cache.conns == s.cache.conns[target := dialed.value]
            && s'.cache.index == s.cache.index - dead + {dialed.value}
            && s'.cache.records == s.cache.records[dialed.value := Record(target, 1, 0)])
      && (!live && dialed.None? ==>
            && s'.uses == s.uses
            && s'.cache.conns == s.cache.conns - {target}
            && s'.cache.index == s.cache.index - dead
            && s'.cache.records == s.cache.records)
  {
  }

  /** A closed connector refuses to dial. */
  lemma NoDialAfterClose<C>(s: System<C>, u: nat, target: string, dialed: Option<C>)
    requires Invariant(s) && s.cache.closed && Enabled(s, DialStart(u, target, dialed))
    ensures Apply(s, DialStart(u, target, dialed)) == s
  {
  }

  /** A dial whose connection does not become ready takes it out of the index and shuts it, for all
      that hold it.  It also clears the entry of its target, which may be a newer connection. */
  lemma FailOutcome<C>(s: System<C>, u: nat, now: int)
    requires Invariant(s) && Enabled(s, DialFail(u, now))
    ensures var s', c := Apply(s, DialFail(u, now)), s.uses[u].conn;
      && s'.cache.index == s.cache.index - {c} && s'.cache.shut == s.cache.shut + {c}
      && s'.cache.conns == s.cache.conns - {s.cache.records[c].target}
      && s'.uses == s.uses[u := Use(c, Gone)] && s'.janitors == s.janitors
  {
  }

  // ----- what a sweep does -----

  /** Before the connector is closed, a sweep closes exactly the connections of the index that
      nobody holds and that are idle past the limit, besides those already dead.  In particular it
      never closes a connection that a caller holds.  The targets of what it takes out are cleared. */
  lemma SweepIsExact<C>(s: System<C>, now: int, idle: int, hears: bool, c: C)
    requires Invariant(s) && !s.cache.closed && Enabled(s, JanitorTick(now, idle, hears)) && c in s.cache.records
    ensures var s' := Apply(s, JanitorTick(now, idle, hears));
      var unheld := Holders(s.uses, c) == {} && now > s.cache.records[c].lastClose + idle;
      && (c in s'.cache.index <==> c in s.cache.index && !unheld && c !in s.cache.shut)
      && (c in s'.cache.shut <==> c in s.cache.shut || (c in s.cache.index && unheld))
      && (Holders(s.uses, c) != {} && c !in s.cache.shut ==> c !in s'.cache.shut)
      && s'.cache.records == s.cache.records
      && (forall t | t in s.cache.conns ::
            (t in s'.cache.conns && s'.cache.conns[t] == s.cache.conns[t]) <==>
            (forall d | d in s.cache.index && d !in s'.cache.index :: s.cache.records[d].target != t))
      && s'.cache.conns.Keys <= s.cache.conns.Keys
  {
    assert CountedAt(s, c);
    assert |Holders(s.uses, c)| == 0 <==> Holders(s.uses, c) == {};
  }

  /** When the run last gave `c` back; `last` is when that was before the run. */
  ghost function LastRelease<C>(s: System<C>, steps: seq<Step<C>>, c: C, last: Option<int>): Option<int>
    requires Invariant(s) && Possible(s, steps)
    decreases steps
  {
    if steps == [] then last
    else
      var step := steps[0];
      StepKeepsInvariant(s, step);
      LastRelease(Apply(s, step), steps[1..], c,
                  if step.HandleRelease? && s.uses[step.use].conn == c then Some(step.now) else last)
  }

  /** An indexed connection carries the time of its last release; one never released is in use. */
  ghost predicate Stamped<C>(s: System<C>, c: C, last: Option<int>) {
    c in s.cache.index && c in s.cache.records && !s.cache.closed ==>
      match last
      case Some(t) => s.cache.records[c].lastClose == t
      case None => s.cache.records[c].open > 0
  }

  lemma StepKeepsStamp<C>(s: System<C>, step: Step<C>, c: C, last: Option<int>)
    requires Invariant(s) && Enabled(s, step) && Stamped(s, c, last)
    requires c !in s.cache.records ==> last.None?
    ensures Stamped(Apply(s, step), c, if step.HandleRelease? && s.uses[step.use].conn == c then Some(step.now) else last)
    ensures c !in Apply(s, step).cache.records ==> !(step.HandleRelease? && s.uses[step.use].conn == c)
  {
    if step.HandleRelease? && s.uses[step.use].conn == c {
      assert CountedAt(s, c) && step.use in Holders(s.uses, c);
    }
  }

  lemma {:induction false} ExecKeepsStamp<C>(s: System<C>, steps: seq<Step<C>>, c: C, last: Option<int>)
    requires Invariant(s) && Possible(s, steps) && Stamped(s, c, last)
    requires c !in s.cache.records ==> last.None?
    ensures Stamped(Exec(s, steps), c, LastRelease(s, steps, c, last))
    decreases steps
  {
    if steps != [] {
      StepKeepsInvariant(s, steps[0]);
      StepKeepsStamp(s, steps[0], c, last);
      ExecKeepsStamp(Apply(s, steps[0]), steps[1..], c,
                     if steps[0].HandleRelease? && s.uses[steps[0].use].conn == c then Some(steps[0].now) else last);
    }
  }

  lemma StampDecides<C>(s: System<C>, now: int, idle: int, hears: bool, c: C, last: Option<int>)
    requires Invariant(s) && Stamped(s, c, last)
    requires Enabled(s, JanitorTick(now, idle, hears)) && !s.cache.closed && c in s.cache.index && c !in s.cache.shut
    ensures c in Apply(s, JanitorTick(now, idle, hears)).cache.shut <==>
            Holders(s.uses, c) == {} && last.Some? && now > last.value + idle
  {
    SweepIsExact(s, now, idle, hears, c);
    assert CountedAt(s, c);
  }

  /** In every run in which `c` is created, as in all runs from a new connector: a sweep shuts `c`,
      live and indexed, iff no caller holds it and more than the idle time has passed since the run
      last gave it back. */
  lemma IdleSinceLastRelease<C>(start: System<C>, steps: seq<Step<C>>, now: int, idle: int, hears: bool, c: C)
    requires Invariant(start) && Possible(start, steps) && c !in start.cache.records
    requires var s := Exec(start, steps);
      Enabled(s, JanitorTick(now, idle, hears)) && !s.cache.closed && c in s.cache.index && c !in s.cache.shut
    ensures var s, last := Exec(start, steps), LastRelease(start, steps, c, None);
      Invariant(s) &&
      (c in Apply(s, JanitorTick(now, idle, hears)).cache.shut <==>
       Holders(s.uses, c) == {} && last.Some? && now > last.value + idle)
  {
    ExecKeepsInvariant(start, steps);
    ExecKeepsStamp(start, steps, c, None);
    StampDecides(Exec(start, steps), now, idle, hears, c, LastRelease(start, steps, c, None));
  }

  lemma {:induction false} NoLaterRelease<C>(s: System<C>, steps: seq<Step<C>>, c: C, last: Option<int>)
    requires Invariant(s) && Possible(s, steps) && LastRelease(s, steps, c, None).None?
    ensures LastRelease(s, steps, c, last) == last
    decreases steps
  {
    if steps != [] {
      var next, step := Apply(s, steps[0]), steps[0];
      StepKeepsInvariant(s, step);
      if step.HandleRelease? && s.uses[step.use].conn == c {
        LaterReleaseStays(next, steps[1..], c, step.now);
      } else {
        NoLaterRelease(next, steps[1..], c, last);
      }
    }
  }

  lemma {:induction false} LaterReleaseStays<C>(s: System<C>, steps: seq<Step<C>>, c: C, t: int)
    requires Invariant(s) && Possible(s, steps)
    ensures LastRelease(s, steps, c, Some(t)).Some?
    decreases steps
  {
    if steps != [] {
      var next, step := Apply(s, steps[0]), steps[0];
      StepKeepsInvariant(s, step);
      LaterReleaseStays(next, steps[1..], c, if step.HandleRelease? && s.uses[step.use].conn == c then step.now else t);
    }
  }

  /** After a release at `t`, and any steps that do not release that connection again, a sweep shuts
      it, if it still lives, iff no caller holds it and it is past `t` by more than the idle time. */
  lemma IdleSinceRelease<C>(s: System<C>, u: nat, t: int, steps: seq<Step<C>>, now: int, idle: int, hears: bool)
    requires Invariant(s) && Enabled(s, HandleRelease(u, t)) && s.uses[u].conn in s.cache.index
    requires var s' := Apply(s, HandleRelease(u, t));
      Invariant(s') && Possible(s', steps) && LastRelease(s', steps, s.uses[u].conn, None).None?
    requires var s', c := Exec(Apply(s, HandleRelease(u, t)), steps), s.uses[u].conn;
      Enabled(s', JanitorTick(now, idle, hears)) && !s'.cache.closed && c in s'.cache.index && c !in s'.cache.shut
    ensures var s', c := Exec(Apply(s, HandleRelease(u, t)), steps), s.uses[u].conn;
      Invariant(s') &&
      (c in Apply(s', JanitorTick(now, idle, hears)).cache.shut <==> Holders(s'.uses, c) == {} && now > t + idle)
  {
    var s', c := Apply(s, HandleRelease(u, t)), s.uses[u].conn;
    assert CountedAt(s, c) && u in Holders(s.uses, c);
    ExecKeepsInvariant(s', steps);
    NoLaterRelease(s', steps, c, Some(t));
    ExecKeepsStamp(s', steps, c, Some(t));
    StampDecides(Exec(s', steps), now, idle, hears, c, Some(t));
  }

  // ----- who watches the index -----

  /** A janitor is at work. */
  predicate Watched<C>(s: System<C>) {
    s.janitors.starting + s.janitors.running > 0
  }

  /** The return of a dial, or of a handle of an indexed connection, leaves a janitor at work iff none
      is on its way out. */
  lemma WatchedAfterIff<C>(s: System<C>, step: Step<C>)
    requires Invariant(s) && s.phase.NotClosing? && Enabled(s, step)
    requires step.DialReturn? || (step.HandleRelease? && s.uses[step.use].conn in s.cache.index)
    ensures Watched(Apply(s, step)) <==> s.janitors.exiting == 0
  {
  }

  lemma StepWatches<C>(s: System<C>, step: Step<C>, c: C)
    requires Invariant(s) && s.phase.NotClosing? && Enabled(s, step) && Watched(s) && step != CloseSelect
    requires c in s.cache.index && c in Apply(s, step).cache.index
    ensures Watched(Apply(s, step))
  {
  }

  lemma StaysOut<C>(s: System<C>, step: Step<C>, c: C)
    requires Invariant(s) && Enabled(s, step) && c in s.cache.records && c !in s.cache.index
    ensures c in Apply(s, step).cache.records && c !in Apply(s, step).cache.index
  {
  }

  lemma {:induction false} OutForGood<C>(s: System<C>, steps: seq<Step<C>>, c: C)
    requires Invariant(s) && Possible(s, steps) && c in s.cache.records && c !in s.cache.index
    ensures c !in Exec(s, steps).cache.index
    decreases steps
  {
    if steps != [] {
      StepKeepsInvariant(s, steps[0]);
      StaysOut(s, steps[0], c);
      OutForGood(Apply(s, steps[0]), steps[1..], c);
    }
  }

  lemma {:induction false} NotClosingBefore<C>(s: System<C>, steps: seq<Step<C>>)
    requires Invariant(s) && Possible(s, steps) && Exec(s, steps).phase.NotClosing?
    ensures s.phase.NotClosing?
    decreases steps
  {
    if steps != [] {
      StepKeepsInvariant(s, steps[0]);
      NotClosingBefore(Apply(s, steps[0]), steps[1..]);
    }
  }

  /** Before `Close`, a janitor once at work stays at work as long as one connection stays in the
      index. */
  lemma {:induction false} WatchedWhileIndexed<C>(s: System<C>, steps: seq<Step<C>>, c: C)
    requires Invariant(s) && Possible(s, steps) && Watched(s) && c in s.cache.index
    requires var s' := Exec(s, steps); s'.phase.NotClosing? && c in s'.cache.index
    ensures Watched(Exec(s, steps))
    decreases steps
  {
    if steps != [] {
      var next := Apply(s, steps[0]);
      StepKeepsInvariant(s, steps[0]);
      NotClosingBefore(s, steps);
      NotClosingBefore(next, steps[1..]);
      if c !in next.cache.index {
        OutForGood(next, steps[1..], c);
      }
      StepWatches(s, steps[0], c);
      WatchedWhileIndexed(next, steps[1..], c);
    }
  }

  /** A janitor on its way out is no janitor at work, and its token comes back too late for those who
      found none: a connection dialled and released meanwhile stays in the index, idle and unwatched,
      until the next dial or release. */
  lemma UnwatchedIsReachable<C>(s: System<C>, u: nat, target: string, c: C) returns (steps: seq<Step<C>>)
    requires Invariant(s) && s.phase.NotClosing? && s.janitors.exiting > 0
    requires s.cache.index == {} && u !in s.uses && c !in s.cache.records
    ensures Possible(s, steps)
    ensures var s' := Exec(s, steps);
      s'.phase.NotClosing? && c in s'.cache.index && Holders(s'.uses, c) == {} && Alive(s'.janitors) == 0
  {
    var step: Step<C> := DialStart(u, target, Some(c));
    StepKeepsInvariant(s, step);
    var s1 := Apply(s, step);
    assert Holders(s1.uses, c) == {u};
    steps := LeavesUnwatched(s1, u, c);
    Prepend(s, step, steps);
    steps := [step] + steps;
  }

  /** The only holder of `c` goes on, closes its handle and releases, and then the janitor is gone. */
  lemma LeavesUnwatched<C>(s: System<C>, u: nat, c: C) returns (steps: seq<Step<C>>)
    requires Invariant(s) && s.phase.NotClosing? && c in s.cache.index && c !in s.cache.shut
    requires u in s.uses && s.uses[u].conn == c && Holders(s.uses, c) <= {u}
    requires s.janitors.exiting > 0 || (s.uses[u].stage.Gone? && Alive(s.janitors) == 0)
    ensures Possible(s, steps)
    ensures var s' := Exec(s, steps);
      s'.phase.NotClosing? && c in s'.cache.index && Holders(s'.uses, c) == {} && Alive(s'.janitors) == 0
    decreases match s.uses[u].stage case Waiting => 5 case Opened => 4 case Live => 3 case Releasing => 2 case Gone => 1,
              s.janitors.exiting
  {
    var step: Step<C> :=
      match s.uses[u].stage
      case Waiting => DialReady(u)
      case Opened => DialReturn(u)
      case Live => HandleClose(u)
      case Releasing => HandleRelease(u, 0)
      case Gone => JanitorSendToken;
    if s.uses[u].stage.Gone? && s.janitors.exiting == 0 {
      return [];
    }
    StepKeepsInvariant(s, step);
    var next := Apply(s, step);
    assert Holders(next.uses, c) <= {u};
    var rest := LeavesUnwatched(next, u, c);
    Prepend(s, step, rest);
    steps := [step] + rest;
  }

  // ----- Close -----

  /** Once `Close` has returned every connection ever created is shut down, and in every
      continuation that stays so and no connection is created. */
  lemma {:induction false} ClosedForGood<C>(s: System<C>, steps: seq<Step<C>>)
    requires Invariant(s) && s.phase.Closed? && Possible(s, steps)
    ensures var s' := Exec(s, steps);
      s'.phase.Closed? && s'.cache.records.Keys == s.cache.records.Keys == s.cache.shut == s'.cache.shut
    decreases steps
  {
    if steps != [] {
      StepKeepsInvariant(s, steps[0]);
      ClosedForGood(Apply(s, steps[0]), steps[1..]);
    }
  }

  function StepsToFinish<C>(s: System<C>): nat {
    match s.phase
    case NotClosing => 6
    case AwaitingJanitor => 3 + 2 * s.janitors.starting + s.janitors.running + s.janitors.exiting
    case Flushed => 1
    case Closed => 0
    case _ => 2
  }

  /** A step of `Close` or of the janitor it waits for. */
  function TowardsClosed<C>(s: System<C>): Step<C> {
    match s.phase
    case NotClosing => CloseSelect
    case AwaitingJanitor =>
      if s.janitors.starting > 0 then JanitorSelect
      else if s.janitors.running > 0 then JanitorStop
      else if s.janitors.exiting > 0 then JanitorSendToken
      else CloseAwait
    case Flushed => CloseFinish
    case _ => CloseFlush
  }

  lemma CloseProceeds<C>(s: System<C>)
    requires Invariant(s) && !s.janitors.panicked && !s.phase.Closed?
    ensures Enabled(s, TowardsClosed(s)) && Invariant(Apply(s, TowardsClosed(s)))
    ensures var s' := Apply(s, TowardsClosed(s));
      StepsToFinish(s') < StepsToFinish(s) <= 6 && s'.uses == s.uses && !s'.janitors.panicked
  {
    StepKeepsInvariant(s, TowardsClosed(s));
  }

  /** `Close` never hangs: whatever state it is in, at most six of its own and the janitor's steps
      bring it to its end. */
  lemma CloseCanFinish<C>(s: System<C>) returns (steps: seq<Step<C>>)
    requires Invariant(s) && !s.janitors.panicked
    ensures |steps| <= StepsToFinish(s) <= 6 && Possible(s, steps) && Exec(s, steps).phase.Closed?
    decreases StepsToFinish(s)
  {
    steps := [];
    if !s.phase.Closed? {
      var step := TowardsClosed(s);
      CloseProceeds(s);
      var rest := CloseCanFinish(Apply(s, step));
      Prepend(s, step, rest);
      steps := [step] + rest;
    }
  }

  // ----- a send on the closed channel -----

  /** After `Close`: no janitor is left and no dial is past its wait, so none can be started. */
  ghost predicate Quiet<C>(s: System<C>) {
    && s.phase.Closed?
    && Alive(s.janitors) == 0
    && !s.janitors.panicked
    && forall u | u in s.uses :: !s.uses[u].stage.Opened?
  }

  /** A run that ends in a send on the closed token channel. */
  ghost predicate Panics<C>(s: System<C>, steps: seq<Step<C>>)
    requires Invariant(s)
  {
    Possible(s, steps) && Exec(s, steps).janitors.panicked
  }

  ghost predicate ComesToRest<C>(s: System<C>, steps: seq<Step<C>>)
    requires Invariant(s)
  {
    Possible(s, steps) && Quiet(Exec(s, steps))
  }

  lemma {:induction false} QuietStaysQuiet<C>(s: System<C>, steps: seq<Step<C>>)
    requires Invariant(s) && Quiet(s) && Possible(s, steps)
    ensures Quiet(Exec(s, steps))
    decreases steps
  {
    if steps != [] {
      StepKeepsInvariant(s, steps[0]);
      QuietStaysQuiet(Apply(s, steps[0]), steps[1..]);
    }
  }

  lemma LateJanitorPanics<C>(s: System<C>) returns (steps: seq<Step<C>>)
    requires Invariant(s) && s.phase.Closed? && !s.janitors.panicked && !Quiet(s)
    ensures Panics(s, steps)
    ensures forall step | step in steps :: !step.DialStart? && !step.HandleRelease?
    decreases if s.janitors.exiting > 0 then 1
              else if s.janitors.running + s.janitors.deaf > 0 then 2
              else if s.janitors.starting > 0 then 3 else 4
  {
    if s.janitors.exiting > 0 {
      StepKeepsInvariant(s, JanitorSendToken);
      Prepend(s, JanitorSendToken, []);
      return [JanitorSendToken];
    }
    var step: Step<C>;
    if s.janitors.running + s.janitors.deaf > 0 {
      step := JanitorTick(0, 0, s.janitors.running > 0);
      TickAfterClose(s, step);
    } else if s.janitors.starting > 0 {
      step := JanitorSelect;
    } else {
      var u :| u in s.uses && s.uses[u].stage.Opened?;
      step := DialReturn(u);
    }
    StepKeepsInvariant(s, step);
    var rest := LateJanitorPanics(Apply(s, step));
    Prepend(s, step, rest);
    steps := [step] + rest;
  }

  /** After `Close` every connection is shut, so a tick finds nothing left to watch. */
  lemma TickAfterClose<C>(s: System<C>, step: Step<C>)
    requires Invariant(s) && s.phase.Closed? && step.JanitorTick? && Enabled(s, step)
    ensures Apply(s, step).cache.index == {} && Apply(s, step).janitors.exiting == s.janitors.exiting + 1
  {
  }

  /** A send on the closed token channel can follow `Close` in some continuation exactly when, as
      `Close` returns, a janitor is still there or a dial stands between seeing its connection
      ready and starting the janitor. */
  lemma PanicAfterCloseIff<C>(s: System<C>)
    requires Invariant(s) && s.phase.Closed? && !s.janitors.panicked
    ensures (exists steps :: Panics(s, steps)) <==>
            (Alive(s.janitors) > 0 || exists u :: At(s, u, Opened))
  {
    if !Quiet(s) {
      var steps := LateJanitorPanics(s);
      assert Panics(s, steps);
      if Alive(s.janitors) == 0 {
        var u :| u in s.uses && s.uses[u].stage.Opened?;
        assert At(s, u, Opened);
      }
    } else {
      forall steps | Possible(s, steps)
        ensures !Exec(s, steps).janitors.panicked
      {
        QuietStaysQuiet(s, steps);
      }
    }
  }

  /** After `Close`: some janitor cannot be stopped any more, or is about to be started. */
  ghost predicate Doomed<C>(s: System<C>) {
    && s.phase.Closed?
    && (|| s.janitors.panicked
        || s.janitors.starting + s.janitors.deaf + s.janitors.exiting > 0
        || exists u :: At(s, u, Opened))
  }

  lemma StepStaysDoomed<C>(s: System<C>, step: Step<C>)
    requires Invariant(s) && Doomed(s) && Enabled(s, step)
    ensures Doomed(Apply(s, step))
  {
    var s' := Apply(s, step);
    if u :| At(s, u, Opened) {
      assert step != DialReturn(u) ==> At(s', u, Opened);
    }
  }

  lemma {:induction false} DoomedStaysDoomed<C>(s: System<C>, steps: seq<Step<C>>)
    requires Invariant(s) && Doomed(s) && Possible(s, steps)
    ensures Doomed(Exec(s, steps))
    decreases steps
  {
    if steps != [] {
      StepKeepsInvariant(s, steps[0]);
      StepStaysDoomed(s, steps[0]);
      DoomedStaysDoomed(Apply(s, steps[0]), steps[1..]);
    }
  }

  lemma {:induction false} StopAll<C>(s: System<C>) returns (steps: seq<Step<C>>)
    requires Invariant(s) && s.phase.Closed? && !Doomed(s)
    ensures ComesToRest(s, steps)
    decreases s.janitors.running
  {
    steps := [];
    if s.janitors.running > 0 {
      StepKeepsInvariant(s, JanitorStop);
      assert forall u :: At(Apply(s, JanitorStop), u, Opened) ==> At(s, u, Opened);
      var rest := StopAll(Apply(s, JanitorStop));
      Prepend(s, JanitorStop, rest);
      steps := [JanitorStop] + rest;
    } else {
      assert forall u | u in s.uses :: !At(s, u, Opened);
    }
  }

  /** The panic can be avoided, in the sense that some continuation comes to rest without it, iff all
      janitors that `Close` leaves were at their select before it ended and no dial is about to start
      another.  Any other janitor waits for its next tick and for nothing else. */
  lemma PanicAvoidableIff<C>(s: System<C>)
    requires Invariant(s) && s.phase.Closed?
    ensures (exists steps :: ComesToRest(s, steps)) <==> !Doomed(s)
  {
    if Doomed(s) {
      forall steps | Possible(s, steps)
        ensures !Quiet(Exec(s, steps))
      {
        DoomedStaysDoomed(s, steps);
      }
    } else {
      var steps := StopAll(s);
      assert ComesToRest(s, steps);
    }
  }

  // ----- what a caller can know before Close -----

  /** No further dial is begun and, unless `releases`, no handle given back. */
  ghost predicate Allowed<C>(steps: seq<Step<C>>, releases: bool) {
    forall step | step in steps :: !step.DialStart? && (step.HandleRelease? ==> releases)
  }

  /** A handle that its caller still has, of a connection in the index: giving it back wakes the
      janitor. */
  ghost predicate CanWake<C>(s: System<C>, u: nat) {
    u in s.uses && s.uses[u].stage in {Live, Releasing} && s.uses[u].conn in s.cache.index
  }

  /** A dial that has yet to start the janitor. */
  ghost predicate InDial<C>(s: System<C>, u: nat) {
    At(s, u, Opened) || (At(s, u, Waiting) && s.uses[u].conn !in s.cache.shut)
  }

  /** A janitor is about to put its token back, or has put it back although `Close` stops it. */
  ghost predicate LeavesToken<C>(s: System<C>) {
    s.janitors.exiting > 0 || ((s.phase.AwaitingJanitor? || s.phase.Awaited?) && s.janitors.tokens > 0)
  }

  /** Whatever is allowed to follow, no janitor will be left when `Close` ends. */
  ghost predicate Calm<C>(s: System<C>, releases: bool) {
    && !s.janitors.panicked
    && (forall u :: !InDial(s, u))
    && (releases && LeavesToken(s) ==> forall u :: !CanWake(s, u))
    && (s.phase.Awaited? || s.phase.Flushed? || s.phase.Closed? ==> Alive(s.janitors) == 0)
  }

  lemma StepStaysCalm<C>(s: System<C>, step: Step<C>, releases: bool)
    requires Invariant(s) && Calm(s, releases) && Enabled(s, step)
    requires !step.DialStart? && (step.HandleRelease? ==> releases)
    ensures Calm(Apply(s, step), releases)
  {
    var s' := Apply(s, step);
    NoNewUses(s, step);
    if step.HandleRelease? && !s.cache.closed && s.uses[step.use].conn in s.cache.index {
      assert CanWake(s, step.use);
    } else if step.DialReturn? || step.DialReady? {
      assert InDial(s, step.use);
    }
  }

  lemma NoNewUses<C>(s: System<C>, step: Step<C>)
    requires Invariant(s) && Enabled(s, step) && !step.DialStart? && forall u :: !InDial(s, u)
    ensures forall u :: !InDial(Apply(s, step), u)
    ensures forall u | CanWake(Apply(s, step), u) :: CanWake(s, u)
  {
    forall u
      ensures !InDial(Apply(s, step), u) && (CanWake(Apply(s, step), u) ==> CanWake(s, u))
    {
      assert !InDial(s, u);
      UseGoesOn(s, step, u);
    }
  }

  lemma UseGoesOn<C>(s: System<C>, step: Step<C>, u: nat)
    requires Invariant(s) && Enabled(s, step) && !step.DialStart? && !InDial(s, u)
    ensures !InDial(Apply(s, step), u) && (CanWake(Apply(s, step), u) ==> CanWake(s, u))
  {
    CacheShrinks(s, step);
  }

  lemma CacheShrinks<C>(s: System<C>, step: Step<C>)
    requires Invariant(s) && Enabled(s, step) && !step.DialStart?
    ensures Apply(s, step).cache.index <= s.cache.index && s.cache.shut <= Apply(s, step).cache.shut
  {
  }

  lemma {:induction false} CalmStaysCalm<C>(s: System<C>, steps: seq<Step<C>>, releases: bool)
    requires Invariant(s) && Calm(s, releases) && Possible(s, steps) && Allowed(steps, releases)
    ensures Calm(Exec(s, steps), releases)
    decreases steps
  {
    if steps != [] {
      StepKeepsInvariant(s, steps[0]);
      StepStaysCalm(s, steps[0], releases);
      CalmStaysCalm(Apply(s, steps[0]), steps[1..], releases);
    }
  }

  /** A dial that has seen its connection ready, and `Close` before it goes on. */
  lemma OpenedCanPanic<C>(s: System<C>, u: nat) returns (steps: seq<Step<C>>)
    requires Invariant(s) && !s.janitors.panicked && At(s, u, Opened)
    ensures Panics(s, steps) && Allowed(steps, false)
    decreases StepsToFinish(s)
  {
    if s.phase.Closed? {
      steps := LateJanitorPanics(s);
    } else {
      var step := TowardsClosed(s);
      CloseProceeds(s);
      steps := OpenedCanPanic(Apply(s, step), u);
      Prepend(s, step, steps);
      steps := [step] + steps;
    }
  }

  lemma DialCanPanic<C>(s: System<C>, u: nat) returns (steps: seq<Step<C>>)
    requires Invariant(s) && !s.janitors.panicked && InDial(s, u)
    ensures Panics(s, steps) && Allowed(steps, false)
  {
    if At(s, u, Opened) {
      steps := OpenedCanPanic(s, u);
    } else {
      StepKeepsInvariant(s, DialReady(u));
      steps := OpenedCanPanic(Apply(s, DialReady(u)), u);
      Prepend(s, DialReady(u), steps);
      steps := [DialReady(u)] + steps;
    }
  }

  /** The janitor exits by itself while `Close` waits for it; a handle given back before `Close` goes
      on finds the token and starts another. */
  lemma ReleaseCanPanic<C>(s: System<C>, u: nat) returns (steps: seq<Step<C>>)
    requires Invariant(s) && s.phase.NotClosing? && s.janitors.exiting > 0 && CanWake(s, u)
    ensures Panics(s, steps) && Allowed(steps, true)
    decreases s.uses[u].stage.Live?
  {
    if s.uses[u].stage.Live? {
      StepKeepsInvariant(s, HandleClose(u));
      steps := ReleaseCanPanic(Apply(s, HandleClose(u)), u);
      Prepend(s, HandleClose(u), steps);
      steps := [HandleClose(u)] + steps;
      return;
    }
    var s1 := Apply(s, CloseSelect);
    StepKeepsInvariant(s, CloseSelect);
    var s2 := Apply(s1, JanitorSendToken);
    StepKeepsInvariant(s1, JanitorSendToken);
    var s3 := Apply(s2, CloseAwait);
    StepKeepsInvariant(s2, CloseAwait);
    steps := WakesLate(s3, u);
    Prepend(s2, CloseAwait, steps);
    steps := [CloseAwait] + steps;
    Prepend(s1, JanitorSendToken, steps);
    steps := [JanitorSendToken] + steps;
    Prepend(s, CloseSelect, steps);
    steps := [CloseSelect] + steps;
  }

  lemma WakesLate<C>(s: System<C>, u: nat) returns (steps: seq<Step<C>>)
    requires Invariant(s) && s.phase.Awaited? && s.janitors.tokens > 0 && At(s, u, Releasing) && CanWake(s, u)
    ensures Panics(s, steps) && Allowed(steps, true)
  {
    var step := HandleRelease(u, 0);
    StepKeepsInvariant(s, step);
    steps := LeftJanitorPanics(Apply(s, step));
    Prepend(s, step, steps);
    steps := [step] + steps;
  }

  /** A janitor that `Close` does not wait for outlives it. */
  lemma LeftJanitorPanics<C>(s: System<C>) returns (steps: seq<Step<C>>)
    requires Invariant(s) && s.phase.Awaited? && s.janitors.starting > 0
    ensures Panics(s, steps) && Allowed(steps, false)
  {
    StepKeepsInvariant(s, CloseFlush);
    var s' := Apply(s, CloseFlush);
    StepKeepsInvariant(s', CloseFinish);
    steps := LateJanitorPanics(Apply(s', CloseFinish));
    Prepend(s', CloseFinish, steps);
    steps := [CloseFinish] + steps;
    Prepend(s, CloseFlush, steps);
    steps := [CloseFlush] + steps;
  }

  /** From any state before `Close`: when no further dial is begun, a send on the closed channel can
      follow iff a dial of a live connection is still in progress, or handles are given back too, one
      of them is of an indexed connection, and a janitor is on its way out.  So a caller whose dials
      have all returned, and who gives nothing back from then on, is safe. */
  lemma PanicPossibleIff<C>(s: System<C>, releases: bool)
    requires Invariant(s) && s.phase.NotClosing?
    ensures (exists steps :: Panics(s, steps) && Allowed(steps, releases)) <==>
            ((exists u :: InDial(s, u)) || (releases && s.janitors.exiting > 0 && exists u :: CanWake(s, u)))
  {
    if u :| InDial(s, u) {
      var steps := DialCanPanic(s, u);
      assert Panics(s, steps) && Allowed(steps, releases);
    } else if releases && s.janitors.exiting > 0 && exists u :: CanWake(s, u) {
      var u :| CanWake(s, u);
      var steps := ReleaseCanPanic(s, u);
      assert Panics(s, steps) && Allowed(steps, releases);
    } else {
      forall steps | Possible(s, steps) && Allowed(steps, releases)
        ensures !Exec(s, steps).janitors.panicked
      {
        CalmStaysCalm(s, steps, releases);
      }
    }
  }

  /** And one more dial, whatever the state before `Close`, is enough to make the panic possible. */
  lemma AnotherDialCanPanic<C>(s: System<C>, u: nat, target: string, c: C) returns (steps: seq<Step<C>>)
    requires Invariant(s) && s.phase.NotClosing? && u !in s.uses && c !in s.cache.records
    ensures Panics(s, steps)
    ensures steps != [] && steps[0] == DialStart(u, target, Some(c)) && Allowed(steps[1..], false)
  {
    var dial := DialStart(u, target, Some(c));
    StepKeepsInvariant(s, dial);
    assert InDial(Apply(s, dial), u);
    var rest := DialCanPanic(Apply(s, dial), u);
    Prepend(s, dial, rest);
    steps := [dial] + rest;
  }

  lemma PanicIsReachable<C>(s: System<C>, c: C) returns (steps: seq<Step<C>>)
    requires s == Initial()
    ensures Panics(s, steps)
  {
    var u := 0;
    NewIsEmpty(s, u, c);
    steps := AnotherDialCanPanic(s, u, "", c);
  }

  lemma NewIsEmpty<C>(s: System<C>, u: nat, c: C)
    requires s == Initial()
    ensures Invariant(s) && s.phase.NotClosing? && u !in s.uses && c !in s.cache.records
  {
  }
}
