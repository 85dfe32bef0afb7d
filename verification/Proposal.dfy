/**
 Sending a proposal to several targets at once and collecting the answers under a mutex.
 */
module Proposal {
  import opened Collections

  /** A proposal processor: a peer with its URL, one of another kind, or a nil interface. */
  datatype Target = Peer(url: string, id: nat) | Processor(id: nat) | NilTarget

  /** A block; `data` is None when the data or its list of transactions is nil. */
  datatype Block = Block(number: nat, data: Option<seq<string>>)

  /** A proposal response; `block` is what its payload decodes to as a block. */
  datatype Response = Response(endorser: string, status: int, block: Option<Block>)

  datatype Fault =
    | TargetsRequired
    | TargetIsNil
    | Rpc(cause: string)
    | BadStatus(endorser: string, status: int)
    | VerifyFailed(endorser: string)

  datatype Outcome = Answer(response: Response) | Failed(fault: Fault)

  // ----- multi errors -----

  datatype Error = NoError | Single(fault: Fault) | Multi(faults: seq<Fault>)

  function Faults(e: Error): seq<Fault> {
    match e
    case NoError => []
    case Single(f) => [f]
    case Multi(fs) => fs
  }

  /** multi.Append of a non-nil error: the faults so far and the new one, in whatever shape. */
  function Append(e: Error, f: Fault): (r: Error)
    ensures Faults(r) == Faults(e) + [f] && r != NoError
  {
    match e
    case NoError => Single(f)
    case Single(g) => Multi([g, f])
    case Multi(fs) => Multi(fs + [f])
  }

  function ToError(fs: seq<Fault>): (r: Error)
    ensures Faults(r) == fs && (r.NoError? <==> fs == [])
  {
    if |fs| == 0 then NoError else if |fs| == 1 then Single(fs[0]) else Multi(fs)
  }

  // ----- getTargetsWithoutDuplicates -----

  ghost function Urls(ts: seq<Target>): set<string> {
    set t | t in ts && t.Peer? :: t.url
  }

  /** The first peer of each URL, in order. */
  ghost function FirstOfEach(ts: seq<Target>): seq<Target> {
    if ts == [] then []
    else
      var init, t := ts[..|ts| - 1], ts[|ts| - 1];
      FirstOfEach(init) + if t.Peer? && t.url in Urls(init) then [] else [t]
  }

  ghost predicate AllPeers(ts: seq<Target>) {
    forall t | t in ts :: t.Peer?
  }

  ghost predicate DistinctUrls(ts: seq<Target>) {
    forall i, j | 0 <= i < j < |ts| && ts[i].Peer? && ts[j].Peer? :: ts[i].url != ts[j].url
  }

  method TargetsWithoutDuplicates(targets: seq<Target>) returns (r: seq<Target>)
    ensures r == if AllPeers(targets) then FirstOfEach(targets) else targets
    ensures (exists t | t in targets :: !t.Peer?) ==> r == targets
    ensures (forall t | t in targets :: t.Peer?) ==>
      && (forall i, j | 0 <= i < j < |r| :: r[i].Peer? && r[j].Peer? && r[i].url != r[j].url)
      && (forall t | t in targets :: exists x | x in r :: x.Peer? && x.url == t.url)
      && Subsequence(r, targets)
  {
    if AllPeers(targets) {
      DistinctFirsts(targets);
    }
    var seen: map<string, Target> := map[];
    var unique := [];
    for i := 0 to |targets|
      invariant AllPeers(targets[..i])
      invariant seen.Keys == Urls(targets[..i])
      invariant unique == FirstOfEach(targets[..i])
    {
      if !targets[i].Peer? {
        assert targets[i] in targets;
        return targets;
      }
      PrefixNext(targets, i);
      if targets[i].url !in seen {
        unique := unique + [targets[i]];
        seen := seen[targets[i].url := targets[i]];
      }
    }
    assert targets[..|targets|] == targets;
    return unique;
  }

  lemma UrlsNext(ts: seq<Target>, t: Target)
    ensures Urls(ts + [t]) == Urls(ts) + if t.Peer? then {t.url} else {}
  {
    assert forall u :: u in ts + [t] <==> u in ts || u == t;
    if t.Peer? {
      assert t in ts + [t];
    }
    forall u | u in Urls(ts)
      ensures u in Urls(ts + [t])
    {
      var x :| x in ts && x.Peer? && x.url == u;
      assert x in ts + [t];
    }
  }

  lemma FirstOfEachNext(ts: seq<Target>, t: Target)
    ensures FirstOfEach(ts + [t]) == FirstOfEach(ts) + if t.Peer? && t.url in Urls(ts) then [] else [t]
  {
    assert (ts + [t])[..|ts|] == ts;
  }

  lemma PrefixNext(ts: seq<Target>, i: nat)
    requires i < |ts| && AllPeers(ts[..i]) && ts[i].Peer?
    ensures AllPeers(ts[..i + 1]) && Urls(ts[..i + 1]) == Urls(ts[..i]) + {ts[i].url}
    ensures FirstOfEach(ts[..i + 1]) == FirstOfEach(ts[..i]) + if ts[i].url in Urls(ts[..i]) then [] else [ts[i]]
  {
    assert ts[..i + 1] == ts[..i] + [ts[i]];
    FirstOfEachNext(ts[..i], ts[i]);
    UrlsNext(ts[..i], ts[i]);
  }

  /** One target per URL, and no URL lost. */
  lemma {:induction false} OnePerUrl(ts: seq<Target>)
    requires AllPeers(ts)
    ensures AllPeers(FirstOfEach(ts)) && DistinctUrls(FirstOfEach(ts)) && Urls(FirstOfEach(ts)) == Urls(ts)
    decreases |ts|
  {
    if ts != [] {
      var init, t := ts[..|ts| - 1], ts[|ts| - 1];
      assert ts == init + [t];
      OnePerUrl(init);
      FirstOfEachNext(init, t);
      UrlsNext(init, t);
      if t.url !in Urls(init) {
        UrlsNext(FirstOfEach(init), t);
        DistinctNext(FirstOfEach(init), t);
      }
    }
  }

  lemma DistinctNext(r: seq<Target>, t: Target)
    requires AllPeers(r) && DistinctUrls(r) && t.Peer? && t.url !in Urls(r)
    ensures DistinctUrls(r + [t])
  {
    forall i | 0 <= i < |r|
      ensures r[i].url != t.url
    {
      assert r[i] in r && r[i].url in Urls(r);
    }
  }

  lemma {:induction false} FirstsInOrder(ts: seq<Target>)
    ensures Subsequence(FirstOfEach(ts), ts)
    decreases |ts|
  {
    if ts == [] {
      NothingIsSubsequence(ts);
    } else {
      var init, t := ts[..|ts| - 1], ts[|ts| - 1];
      assert ts == init + [t];
      FirstsInOrder(init);
      FirstOfEachNext(init, t);
      SubsequenceNext(FirstOfEach(init), init, t);
      assert FirstOfEach(ts) == FirstOfEach(init) || FirstOfEach(ts) == FirstOfEach(init) + [t];
    }
  }

  lemma DistinctFirsts(ts: seq<Target>)
    requires AllPeers(ts)
    ensures var r := FirstOfEach(ts);
      && (forall i, j | 0 <= i < j < |r| :: r[i].Peer? && r[j].Peer? && r[i].url != r[j].url)
      && (forall t | t in ts :: exists x | x in r :: x.Peer? && x.url == t.url)
      && Subsequence(r, ts)
  {
    var r := FirstOfEach(ts);
    OnePerUrl(ts);
    FirstsInOrder(ts);
    forall t | t in ts
      ensures exists x | x in r :: x.Peer? && x.url == t.url
    {
      assert t.url in Urls(r);
    }
    forall i | 0 <= i < |r|
      ensures r[i].Peer?
    {
      assert r[i] in r;
    }
  }

  /** `t` occurs in `ts`, before any other target of its URL. */
  ghost predicate IsFirst(ts: seq<Target>, t: Target)
    requires t.Peer?
  {
    exists i | 0 <= i < |ts| :: ts[i] == t && t.url !in Urls(ts[..i])
  }

  lemma {:induction false} EachIsFirst(ts: seq<Target>, x: Target)
    requires AllPeers(ts) && x in FirstOfEach(ts)
    ensures x.Peer? && IsFirst(ts, x)
    decreases |ts|
  {
    var init, t := ts[..|ts| - 1], ts[|ts| - 1];
    if x in FirstOfEach(init) {
      EachIsFirst(init, x);
      var i :| 0 <= i < |init| && init[i] == x && x.url !in Urls(init[..i]);
      assert ts[..i] == init[..i] && ts[i] == x;
    } else {
      assert x == t && ts[|init|] == x && ts[..|init|] == init;
      assert t.Peer? by { assert t in ts; }
    }
  }

  // ----- the fan-out -----

  ghost predicate Within(order: seq<nat>, n: nat) {
    forall k | 0 <= k < |order| :: order[k] < n
  }

  /** The answers in the order in which they come in. */
  ghost function InOrder(answers: seq<Outcome>, order: seq<nat>): seq<Outcome>
    requires Within(order, |answers|)
  {
    seq(|order|, k requires 0 <= k < |order| => answers[order[k]])
  }

  ghost function ResponsesIn(log: seq<Outcome>): seq<Response> {
    if log == [] then []
    else
      var a := log[|log| - 1];
      ResponsesIn(log[..|log| - 1]) + if a.Answer? then [a.response] else []
  }

  ghost function FaultsIn(log: seq<Outcome>): seq<Fault> {
    if log == [] then []
    else
      var a := log[|log| - 1];
      FaultsIn(log[..|log| - 1]) + if a.Failed? then [a.fault] else []
  }

  /** The goroutines run in any order; the i-th gets the answer `answers[i]` and appends it to one of
      the two shared lists. */
  method FanOut(n: nat, answers: seq<Outcome>) returns (responses: seq<Response>, errs: seq<Fault>, ghost order: seq<nat>)
    requires n <= |answers|
    ensures Permutes(order, n) && Within(order, |answers|)
    ensures responses == ResponsesIn(InOrder(answers, order)) && errs == FaultsIn(InOrder(answers, order))
    ensures forall r :: multiset(responses)[r] == multiset(answers[..n])[Answer(r)]
    ensures forall f :: multiset(errs)[f] == multiset(answers[..n])[Failed(f)]
  {
    var pending := Spawn(n);
    responses, errs, order := [], [], [];
    while pending != {}
      invariant Entered(order, pending, n)
      invariant Within(order, |answers|)
      invariant responses == ResponsesIn(InOrder(answers, order)) && errs == FaultsIn(InOrder(answers, order))
      decreases pending
    {
      var i :| i in pending;
      EnterNext(order, pending, n, i);
      LogNext(answers, order, i);
      pending, order := pending - {i}, order + [i];
      match answers[i]
      case Answer(r) => responses := responses + [r];
      case Failed(f) => errs := errs + [f];
    }
    EveryAnswerOnce(answers, n, order);
    ghost var log := InOrder(answers, order);
    forall r ensures multiset(responses)[r] == multiset(log)[Answer(r)] { ResponsesCounted(log, r); }
    forall f ensures multiset(errs)[f] == multiset(log)[Failed(f)] { FaultsCounted(log, f); }
  }

  /** The loop that starts the goroutines. */
  method Spawn(n: nat) returns (pending: set<nat>)
    ensures Entered([], pending, n)
  {
    pending := {};
    for i := 0 to n
      invariant |pending| == i && forall k: nat :: k in pending <==> k < i
    {
      pending := pending + {i};
    }
  }

  /** Some goroutines have entered the mutex, in this order; the others are pending. */
  ghost predicate Entered(order: seq<nat>, pending: set<nat>, n: nat) {
    && |order| + |pending| == n
    && (forall i, j | 0 <= i < j < |order| :: order[i] != order[j])
    && (forall i: nat :: i in order <==> i < n && i !in pending)
    && (forall i | i in pending :: i < n)
  }

  lemma EnterNext(order: seq<nat>, pending: set<nat>, n: nat, i: nat)
    requires Entered(order, pending, n) && i in pending
    ensures Entered(order + [i], pending - {i}, n)
  {
    assert i !in order;
  }

  lemma LogNext(answers: seq<Outcome>, order: seq<nat>, i: nat)
    requires Within(order, |answers|) && i < |answers|
    ensures Within(order + [i], |answers|)
    ensures var log, log', a := InOrder(answers, order), InOrder(answers, order + [i]), answers[i];
      && ResponsesIn(log') == ResponsesIn(log) + (if a.Answer? then [a.response] else [])
      && FaultsIn(log') == FaultsIn(log) + (if a.Failed? then [a.fault] else [])
  {
    var log' := InOrder(answers, order + [i]);
    assert log'[..|order|] == InOrder(answers, order);
  }

  lemma RemoveAt<T>(s: seq<T>, p: nat)
    requires p < |s|
    ensures multiset(s) == multiset(s[..p] + s[p + 1..]) + multiset{s[p]}
  {
    assert s == s[..p] + [s[p]] + s[p + 1..];
  }

  lemma ListWithout(order: seq<nat>, n: nat, p: nat)
    requires n > 0 && Permutes(order, n) && p < |order| && order[p] == n - 1
    ensures Permutes(order[..p] + order[p + 1..], n - 1)
  {
    var rest := order[..p] + order[p + 1..];
    forall i: nat
      ensures i in rest <==> i < n - 1
    {
      if i in rest {
        var k :| 0 <= k < |rest| && rest[k] == i;
        var q := if k < p then k else k + 1;
        assert order[q] == i && q != p;
        assert i in order;
      }
      if i < n - 1 {
        assert i in order;
        var k :| 0 <= k < |order| && order[k] == i;
        assert rest[if k < p then k else k - 1] == i;
      }
    }
  }

  lemma LogWithout(answers: seq<Outcome>, order: seq<nat>, p: nat)
    requires Within(order, |answers|) && p < |order|
    ensures var rest := order[..p] + order[p + 1..];
      Within(rest, |answers|) &&
      multiset(InOrder(answers, order)) == multiset(InOrder(answers, rest)) + multiset{answers[order[p]]}
  {
    var rest, log := order[..p] + order[p + 1..], InOrder(answers, order);
    RemoveAt(log, p);
    assert InOrder(answers, rest) == log[..p] + log[p + 1..];
  }

  lemma PrefixMultiset<T>(s: seq<T>, n: nat)
    requires 0 < n <= |s|
    ensures multiset(s[..n]) == multiset(s[..n - 1]) + multiset{s[n - 1]}
  {
    assert s[..n] == s[..n - 1] + [s[n - 1]];
  }

  /** Every answer comes in exactly once, whatever the interleaving. */
  lemma {:induction false} EveryAnswerOnce(answers: seq<Outcome>, n: nat, order: seq<nat>)
    requires n <= |answers| && Permutes(order, n) && Within(order, |answers|)
    ensures multiset(InOrder(answers, order)) == multiset(answers[..n])
  {
    if n > 0 {
      assert n - 1 in order;
      var p :| 0 <= p < |order| && order[p] == n - 1;
      ListWithout(order, n, p);
      LogWithout(answers, order, p);
      EveryAnswerOnce(answers, n - 1, order[..p] + order[p + 1..]);
      PrefixMultiset(answers, n);
    }
  }

  /** Each entry of the log is in its own list, as often as it came in. */
  lemma {:induction false} ResponsesCounted(log: seq<Outcome>, r: Response)
    ensures multiset(ResponsesIn(log))[r] == multiset(log)[Answer(r)]
    decreases |log|
  {
    if log != [] {
      var init := log[..|log| - 1];
      assert log == init + [log[|init|]];
      ResponsesCounted(init, r);
    }
  }

  lemma {:induction false} FaultsCounted(log: seq<Outcome>, f: Fault)
    ensures multiset(FaultsIn(log))[f] == multiset(log)[Failed(f)]
    decreases |log|
  {
    if log != [] {
      var init := log[..|log| - 1];
      assert log == init + [log[|init|]];
      FaultsCounted(init, f);
    }
  }

  function AsAnswers(responses: seq<Response>): seq<Outcome> {
    seq(|responses|, k requires 0 <= k < |responses| => Answer(responses[k]))
  }

  function AsFailures(errs: seq<Fault>): seq<Outcome> {
    seq(|errs|, k requires 0 <= k < |errs| => Failed(errs[k]))
  }

  /** Both lists are in the order in which the answers came in. */
  lemma {:induction false} ListsInOrder(log: seq<Outcome>)
    ensures Subsequence(AsAnswers(ResponsesIn(log)), log) && Subsequence(AsFailures(FaultsIn(log)), log)
    decreases |log|
  {
    if log == [] {
      NothingIsSubsequence(log);
    } else {
      var init, a := log[..|log| - 1], log[|log| - 1];
      assert log == init + [a];
      ListsInOrder(init);
      SubsequenceNext(AsAnswers(ResponsesIn(init)), init, a);
      SubsequenceNext(AsFailures(FaultsIn(init)), init, a);
      assert AsAnswers(ResponsesIn(log)) == AsAnswers(ResponsesIn(init)) + if a.Answer? then [a] else [];
      assert AsFailures(FaultsIn(log)) == AsFailures(FaultsIn(init)) + if a.Failed? then [a] else [];
      assert a.Answer? || AsAnswers(ResponsesIn(log)) == AsAnswers(ResponsesIn(init));
      assert a.Failed? || AsFailures(FaultsIn(log)) == AsFailures(FaultsIn(init));
    }
  }

  /** SendProposal: nil targets are refused before anything is sent; otherwise each target left
      after removing duplicates contributes exactly one response or one error. */
  method SendProposal(targets: seq<Target>, answers: seq<Outcome>)
    returns (responses: seq<Response>, errs: Error, ghost sent: seq<Target>, ghost order: seq<nat>)
    requires |targets| <= |answers|
    ensures targets == [] ==> responses == [] && errs == Single(TargetsRequired)
    ensures targets != [] && NilTarget in targets ==> responses == [] && errs == Single(TargetIsNil)
    ensures targets != [] && NilTarget !in targets ==>
      && sent == (if AllPeers(targets) then FirstOfEach(targets) else targets)
      && |sent| <= |answers| && Permutes(order, |sent|) && Within(order, |answers|)
      && responses == ResponsesIn(InOrder(answers, order)) && Faults(errs) == FaultsIn(InOrder(answers, order))
      && (forall r :: multiset(responses)[r] == multiset(answers[..|sent|])[Answer(r)])
      && (forall f :: multiset(Faults(errs))[f] == multiset(answers[..|sent|])[Failed(f)])
  {
    sent, order := [], [];
    if |targets| < 1 {
      return [], Single(TargetsRequired), sent, order;
    }
    for i := 0 to |targets|
      invariant NilTarget !in targets[..i]
    {
      if targets[i].NilTarget? {
        return [], Single(TargetIsNil), sent, order;
      }
    }
    var unique := TargetsWithoutDuplicates(targets);
    FirstOfEachShrinks(targets);
    var faults;
    responses, faults, order := FanOut(|unique|, answers);
    sent := unique;
    errs := ToError(faults);
  }

  lemma {:induction false} FirstOfEachShrinks(ts: seq<Target>)
    ensures |FirstOfEach(ts)| <= |ts|
    decreases |ts|
  {
    if ts != [] {
      FirstOfEachShrinks(ts[..|ts| - 1]);
    }
  }
}
