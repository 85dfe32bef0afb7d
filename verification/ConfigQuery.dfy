/**
 Querying the config block from several peers: the responses are filtered in place, matched against
 each other, and the block of the first is returned.
 */
module ConfigQuery {
  import opened Collections
  import opened Proposal

  const STATUS_OK := 200

  // ----- filterResponses -----

  /** Passes the filter; `rejected` are the responses that the verifier refuses. */
  predicate Passes(r: Response, rejected: set<Response>) {
    r.status == STATUS_OK && r !in rejected
  }

  ghost function Kept(rs: seq<Response>, rejected: set<Response>): seq<Response> {
    if rs == [] then []
    else
      var r := rs[|rs| - 1];
      Kept(rs[..|rs| - 1], rejected) + if Passes(r, rejected) then [r] else []
  }

  function DropFault(r: Response): Fault {
    if r.status == STATUS_OK then VerifyFailed(r.endorser) else BadStatus(r.endorser, r.status)
  }

  ghost function Drops(rs: seq<Response>, rejected: set<Response>): seq<Fault> {
    if rs == [] then []
    else
      var r := rs[|rs| - 1];
      Drops(rs[..|rs| - 1], rejected) + if Passes(r, rejected) then [] else [DropFault(r)]
  }

  lemma FilterNext(rs: seq<Response>, rejected: set<Response>, i: nat, base: seq<Fault>)
    requires i < |rs|
    ensures Kept(rs[..i + 1], rejected) == Kept(rs[..i], rejected) + if Passes(rs[i], rejected) then [rs[i]] else []
    ensures base + Drops(rs[..i + 1], rejected) ==
            if Passes(rs[i], rejected) then base + Drops(rs[..i], rejected)
            else base + Drops(rs[..i], rejected) + [DropFault(rs[i])]
  {
    assert rs[..i + 1][..i] == rs[..i];
    if !Passes(rs[i], rejected) {
      assert base + (Drops(rs[..i], rejected) + [DropFault(rs[i])]) == base + Drops(rs[..i], rejected) + [DropFault(rs[i])];
    }
  }

  /** The filtered slice shares its array with the responses it reads from.  Still it is their
      order-preserving filter, the rest of the array is untouched, and each dropped response adds
      exactly one error, in order. */
  method FilterResponses(a: array<Response>, errs: Error, rejected: set<Response>) returns (n: nat, e: Error)
    modifies a
    ensures n <= a.Length && a[..n] == Kept(old(a[..]), rejected)
    ensures forall j | n <= j < a.Length :: a[j] == old(a[j])
    ensures Faults(e) == Faults(errs) + Drops(old(a[..]), rejected)
  {
    ghost var rs := a[..];
    n, e := 0, errs;
    for i := 0 to a.Length
      invariant n <= i
      invariant a[..n] == Kept(rs[..i], rejected)
      invariant forall j | n <= j < a.Length :: a[j] == rs[j]
      invariant Faults(e) == Faults(errs) + Drops(rs[..i], rejected)
    {
      FilterNext(rs, rejected, i, Faults(errs));
      n, e := FilterOne(a, n, i, e, rejected);
    }
    assert rs[..a.Length] == rs;
  }

  /** The body of the loop: the response is moved to the end of those kept, or reported. */
  method FilterOne(a: array<Response>, n: nat, i: nat, errs: Error, rejected: set<Response>) returns (n': nat, e: Error)
    requires n <= i < a.Length
    modifies a
    ensures n' <= i + 1
    ensures a[..n'] == old(a[..n]) + if Passes(old(a[i]), rejected) then [old(a[i])] else []
    ensures forall j | n' <= j < a.Length :: a[j] == old(a[j])
    ensures Faults(e) == Faults(errs) + if Passes(old(a[i]), rejected) then [] else [DropFault(old(a[i]))]
  {
    n', e := n, errs;
    var response := a[i];
    if response.status == STATUS_OK {
      if response in rejected {
        e := Append(e, VerifyFailed(response.endorser));
        return;
      }
      a[n] := response;
      n' := n + 1;
    } else {
      e := Append(e, BadStatus(response.endorser, response.status));
    }
  }

  /** The responses that do not pass, in order. */
  ghost function Dropped(rs: seq<Response>, rejected: set<Response>): seq<Response> {
    if rs == [] then []
    else
      var r := rs[|rs| - 1];
      Dropped(rs[..|rs| - 1], rejected) + if Passes(r, rejected) then [] else [r]
  }

  /** Each response is kept as often as it came in when it has status 200 and is not rejected, and
      otherwise as often dropped. */
  lemma {:induction false} KeptOrDropped(rs: seq<Response>, rejected: set<Response>, r: Response)
    ensures multiset(Kept(rs, rejected))[r] == if r.status == 200 && r !in rejected then multiset(rs)[r] else 0
    ensures multiset(Dropped(rs, rejected))[r] == if r.status == 200 && r !in rejected then 0 else multiset(rs)[r]
    decreases |rs|
  {
    if rs != [] {
      var init := rs[..|rs| - 1];
      assert rs == init + [rs[|init|]];
      KeptOrDropped(init, rejected, r);
    }
  }

  /** The added errors are those of the dropped responses, one by one, by status or by verifier. */
  lemma {:induction false} EachDropIsReported(rs: seq<Response>, rejected: set<Response>)
    ensures |Drops(rs, rejected)| == |Dropped(rs, rejected)|
    ensures forall k | 0 <= k < |Drops(rs, rejected)| ::
              var r := Dropped(rs, rejected)[k];
              && (r.status == 200 ==> Drops(rs, rejected)[k] == VerifyFailed(r.endorser))
              && (r.status != 200 ==> Drops(rs, rejected)[k] == BadStatus(r.endorser, r.status))
    decreases |rs|
  {
    if rs != [] {
      EachDropIsReported(rs[..|rs| - 1], rejected);
    }
  }

  /** Both parts keep their order. */
  lemma {:induction false} KeptInOrder(rs: seq<Response>, rejected: set<Response>)
    ensures Subsequence(Kept(rs, rejected), rs) && Subsequence(Dropped(rs, rejected), rs)
    decreases |rs|
  {
    if rs == [] {
      NothingIsSubsequence(rs);
    } else {
      var init, r := rs[..|rs| - 1], rs[|rs| - 1];
      assert rs == init + [r];
      KeptInOrder(init, rejected);
      SubsequenceNext(Kept(init, rejected), init, r);
      SubsequenceNext(Dropped(init, rejected), init, r);
      assert Passes(r, rejected) || Kept(rs, rejected) == Kept(init, rejected);
      assert !Passes(r, rejected) || Dropped(rs, rejected) == Dropped(init, rejected);
    }
  }

  // ----- Match -----

  datatype Mismatch = MinNotPositive | TooFewResponses | BadBlock | NilData | NotOneTransaction | PayloadsDiffer

  /** The block data of a response, when there is any. */
  function DataOf(r: Response): Option<seq<string>> {
    if r.block.None? then None else r.block.value.data
  }

  /** All responses carry the same data, of exactly one transaction. */
  ghost predicate Matching(rs: seq<Response>, min: int) {
    && 0 < min <= |rs|
    && (forall k | 0 <= k < |rs| :: DataOf(rs[k]).Some? && |DataOf(rs[k]).value| == 1 && DataOf(rs[k]) == DataOf(rs[0]))
  }

  lemma MatchingMeans(rs: seq<Response>, min: int)
    ensures Matching(rs, min) <==>
      && 0 < min <= |rs|
      && exists tx :: forall k | 0 <= k < |rs| :: rs[k].block.Some? && rs[k].block.value.data == Some([tx])
  {
    if Matching(rs, min) {
      var d := DataOf(rs[0]).value;
      assert d == [d[0]];
    }
  }

  method Match(rs: seq<Response>, min: int) returns (err: Option<Mismatch>)
    ensures err.None? <==> Matching(rs, min)
    ensures err == Some(MinNotPositive) <==> min <= 0
    ensures err == Some(TooFewResponses) <==> |rs| < min
    ensures err.None? <==>
      && 0 < min <= |rs|
      && exists tx :: forall k | 0 <= k < |rs| :: rs[k].block.Some? && rs[k].block.value.data == Some([tx])
    ensures err == Some(NilData) <==> 0 < min <= |rs| && rs[0].block.Some? && rs[0].block.value.data.None?
    ensures err == Some(NotOneTransaction) <==>
              0 < min <= |rs| && rs[0].block.Some? && rs[0].block.value.data.Some? && |rs[0].block.value.data.value| != 1
    ensures err == Some(BadBlock) ==> exists k | 0 <= k < |rs| :: rs[k].block.None?
    ensures err == Some(PayloadsDiffer) ==> exists k | 0 <= k < |rs| ::
              rs[k].block.Some? && rs[0].block.Some? && rs[k].block.value.data != rs[0].block.value.data
  {
    MatchingMeans(rs, min);
    if min <= 0 {
      return Some(MinNotPositive);
    }
    if |rs| < min {
      return Some(TooFewResponses);
    }
    if rs[0].block.None? {
      assert DataOf(rs[0]).None?;
      return Some(BadBlock);
    }
    var data := rs[0].block.value.data;
    if data.None? {
      assert DataOf(rs[0]).None?;
      return Some(NilData);
    }
    if |data.value| != 1 {
      assert DataOf(rs[0]) == data;
      return Some(NotOneTransaction);
    }
    for k := 1 to |rs|
      invariant forall j | 0 <= j < k :: DataOf(rs[j]) == data
    {
      if rs[k].block.None? {
        assert DataOf(rs[k]).None?;
        return Some(BadBlock);
      }
      if rs[k].block.value.data != data {
        assert DataOf(rs[k]) != DataOf(rs[0]);
        return Some(PayloadsDiffer);
      }
    }
    return None;
  }

  // ----- QueryConfigBlock -----

  datatype Result = Ok(block: Block) | QueryFailed(error: Error) | NoMatch(reason: Mismatch)

  /** The targets that a proposal is really sent to. */
  ghost function Sent(targets: seq<Target>): seq<Target> {
    if AllPeers(targets) then FirstOfEach(targets) else targets
  }

  predicate Good(o: Outcome) {
    o.Answer? && o.response.status == STATUS_OK
  }

  /** Which of the first n answers are good. */
  ghost function GoodSet(answers: seq<Outcome>, n: nat): set<nat>
    requires n <= |answers|
  {
    set i: nat | i < n && Good(answers[i])
  }

  /** At least `min` targets answered well, and all that did sent the same one-transaction data. */
  ghost predicate Agreement(answers: seq<Outcome>, n: nat, min: int)
    requires n <= |answers|
  {
    && 0 < min <= |GoodSet(answers, n)|
    && exists d :: AllCarry(answers, n, d)
  }

  ghost predicate AllCarry(answers: seq<Outcome>, n: nat, d: seq<string>)
    requires n <= |answers|
  {
    |d| == 1 && forall i | i in GoodSet(answers, n) :: DataOf(answers[i].response) == Some(d)
  }

  ghost function GoodIn(answers: seq<Outcome>, order: seq<nat>): set<nat>
    requires Within(order, |answers|)
  {
    set i | i in order && i < |answers| && Good(answers[i])
  }

  /** What is left after filtering the responses that came in. */
  ghost function KeptOf(answers: seq<Outcome>, order: seq<nat>): seq<Response>
    requires Within(order, |answers|)
  {
    Kept(ResponsesIn(InOrder(answers, order)), {})
  }

  lemma KeptNext(answers: seq<Outcome>, order: seq<nat>, i: nat)
    requires Within(order, |answers|) && i < |answers|
    ensures Within(order + [i], |answers|)
    ensures KeptOf(answers, order + [i]) == KeptOf(answers, order) + if Good(answers[i]) then [answers[i].response] else []
  {
    LogNext(answers, order, i);
    KeptLast(ResponsesIn(InOrder(answers, order)), answers[i]);
  }

  lemma KeptLast(rs: seq<Response>, a: Outcome)
    ensures Kept(rs + (if a.Answer? then [a.response] else []), {}) == Kept(rs, {}) + if Good(a) then [a.response] else []
  {
    if a.Answer? {
      assert (rs + [a.response])[..|rs|] == rs;
    } else {
      assert rs + [] == rs;
    }
  }

  lemma GoodNext(answers: seq<Outcome>, order: seq<nat>, i: nat)
    requires Within(order, |answers|) && i < |answers| && i !in order
    ensures |GoodIn(answers, order + [i])| == |GoodIn(answers, order)| + if Good(answers[i]) then 1 else 0
  {
    assert forall j :: j in order + [i] <==> j in order || j == i;
    assert GoodIn(answers, order + [i]) == GoodIn(answers, order) + if Good(answers[i]) then {i} else {};
  }

  /** The filtered responses are those of the good answers, one for each. */
  lemma {:induction false} KeptAreGood(answers: seq<Outcome>, order: seq<nat>)
    requires Within(order, |answers|) && forall i, j | 0 <= i < j < |order| :: order[i] != order[j]
    ensures |KeptOf(answers, order)| == |GoodIn(answers, order)|
    decreases |order|
  {
    if order == [] {
      assert GoodIn(answers, order) == {};
    } else {
      var init, i := order[..|order| - 1], order[|order| - 1];
      assert order == init + [i];
      KeptAreGood(answers, init);
      KeptNext(answers, init, i);
      GoodNext(answers, init, i);
    }
  }

  lemma {:induction false} KeptMembers(answers: seq<Outcome>, order: seq<nat>, r: Response)
    requires Within(order, |answers|)
    ensures r in KeptOf(answers, order) <==> exists i | i in GoodIn(answers, order) :: answers[i].response == r
    decreases |order|
  {
    if order != [] {
      var init, i := order[..|order| - 1], order[|order| - 1];
      assert order == init + [i];
      KeptMembers(answers, init, r);
      KeptNext(answers, init, i);
      assert forall j :: j in GoodIn(answers, order) <==> j in GoodIn(answers, init) || (j == i && Good(answers[i]));
    }
  }

  /** Whether the filtered responses match does not depend on the order in which they came in. */
  lemma MatchingIff(answers: seq<Outcome>, n: nat, order: seq<nat>, min: int)
    requires n <= |answers| && Permutes(order, n) && Within(order, |answers|)
    ensures Matching(KeptOf(answers, order), min) <==> Agreement(answers, n, min)
  {
    var kept := KeptOf(answers, order);
    KeptAreGood(answers, order);
    assert GoodIn(answers, order) == GoodSet(answers, n);
    if Matching(kept, min) {
      var d := DataOf(kept[0]).value;
      forall i | i in GoodSet(answers, n)
        ensures DataOf(answers[i].response) == Some(d)
      {
        KeptMembers(answers, order, answers[i].response);
        var k :| 0 <= k < |kept| && kept[k] == answers[i].response;
      }
      assert AllCarry(answers, n, d);
    }
    if Agreement(answers, n, min) {
      var d :| AllCarry(answers, n, d);
      forall k | 0 <= k < |kept|
        ensures DataOf(kept[k]) == Some(d)
      {
        KeptMembers(answers, order, kept[k]);
        var i :| i in GoodIn(answers, order) && answers[i].response == kept[k];
      }
    }
  }

  // ----- the errors of a query -----

  /** The answer is an error, or a response with another status than 200, and `f` says so. */
  predicate Reports(o: Outcome, f: Fault) {
    || (o.Failed? && o.fault == f)
    || (o.Answer? && o.response.status != 200 && f == BadStatus(o.response.endorser, o.response.status))
  }

  ghost function Reporting(answers: seq<Outcome>, order: seq<nat>, f: Fault): set<nat>
    requires Within(order, |answers|)
  {
    set i | i in order && i < |answers| && Reports(answers[i], f)
  }

  /** The errors that sending and filtering yield. */
  ghost function FaultsOf(answers: seq<Outcome>, order: seq<nat>): seq<Fault>
    requires Within(order, |answers|)
  {
    FaultsIn(InOrder(answers, order)) + Drops(ResponsesIn(InOrder(answers, order)), {})
  }

  lemma DropsLast(rs: seq<Response>, a: Outcome)
    ensures Drops(rs + (if a.Answer? then [a.response] else []), {}) ==
            Drops(rs, {}) + if a.Answer? && a.response.status != STATUS_OK then [DropFault(a.response)] else []
  {
    if a.Answer? {
      assert (rs + [a.response])[..|rs|] == rs;
    } else {
      assert rs + [] == rs;
    }
  }

  lemma FaultsNext(answers: seq<Outcome>, order: seq<nat>, i: nat, f: Fault)
    requires Within(order, |answers|) && i < |answers|
    ensures Within(order + [i], |answers|)
    ensures multiset(FaultsOf(answers, order + [i]))[f] ==
            multiset(FaultsOf(answers, order))[f] + if Reports(answers[i], f) then 1 else 0
  {
    LogNext(answers, order, i);
    DropsLast(ResponsesIn(InOrder(answers, order)), answers[i]);
  }

  lemma ReportingNext(answers: seq<Outcome>, order: seq<nat>, i: nat, f: Fault)
    requires Within(order, |answers|) && i < |answers| && i !in order
    ensures |Reporting(answers, order + [i], f)| == |Reporting(answers, order, f)| + if Reports(answers[i], f) then 1 else 0
  {
    assert forall j :: j in order + [i] <==> j in order || j == i;
    assert Reporting(answers, order + [i], f) == Reporting(answers, order, f) + if Reports(answers[i], f) then {i} else {};
  }

  /** Each error comes as often as there are answers that it reports. */
  lemma {:induction false} FaultsAreReports(answers: seq<Outcome>, order: seq<nat>, f: Fault)
    requires Within(order, |answers|) && forall i, j | 0 <= i < j < |order| :: order[i] != order[j]
    ensures multiset(FaultsOf(answers, order))[f] == |Reporting(answers, order, f)|
    decreases |order|
  {
    if order == [] {
      assert Reporting(answers, order, f) == {};
    } else {
      var init, i := order[..|order| - 1], order[|order| - 1];
      assert order == init + [i];
      FaultsAreReports(answers, init, f);
      FaultsNext(answers, init, i, f);
      ReportingNext(answers, init, i, f);
    }
  }

  /** The answers that are not good, each reported once. */
  ghost predicate AllReported(faults: seq<Fault>, answers: seq<Outcome>, n: nat)
    requires n <= |answers|
  {
    forall f :: multiset(faults)[f] == |set i: nat | i < n && Reports(answers[i], f)|
  }

  lemma EveryOrderReports(answers: seq<Outcome>, n: nat, order: seq<nat>)
    requires n <= |answers| && Permutes(order, n) && Within(order, |answers|)
    ensures AllReported(FaultsOf(answers, order), answers, n)
  {
    forall f
      ensures multiset(FaultsOf(answers, order))[f] == |set i: nat | i < n && Reports(answers[i], f)|
    {
      FaultsAreReports(answers, order, f);
      assert Reporting(answers, order, f) == set i: nat | i < n && Reports(answers[i], f);
    }
  }

  lemma BadAnswersReport(faults: seq<Fault>, answers: seq<Outcome>, n: nat)
    requires 0 < n <= |answers| && AllReported(faults, answers, n) && GoodSet(answers, n) == {}
    ensures faults != []
  {
    assert 0 !in GoodSet(answers, n) && !Good(answers[0]);
    var a := answers[0];
    var f := if a.Failed? then a.fault else BadStatus(a.response.endorser, a.response.status);
    assert Reports(a, f);
    assert 0 in set i: nat | i < n && Reports(answers[i], f);
    assert multiset(faults)[f] > 0;
  }

  lemma SentIsNotEmpty(targets: seq<Target>)
    requires targets != []
    ensures Sent(targets) != []
  {
    if AllPeers(targets) {
      OnePerUrl(targets);
      assert targets[0] in targets && targets[0].url in Urls(targets);
    }
  }

  // ----- the query -----

  /** queryChaincode, with a verifier that accepts every response. */
  method QueryChaincode(targets: seq<Target>, answers: seq<Outcome>)
    returns (tprs: seq<Response>, errs: Error, ghost order: seq<nat>)
    requires targets != [] && |targets| <= |answers|
    ensures NilTarget in targets ==> tprs == [] && Faults(errs) == [TargetIsNil]
    ensures NilTarget !in targets ==>
      && |Sent(targets)| <= |answers| && Permutes(order, |Sent(targets)|) && Within(order, |answers|)
      && tprs == KeptOf(answers, order) && AllReported(Faults(errs), answers, |Sent(targets)|)
  {
    var responses, faults;
    ghost var sent;
    responses, faults, sent, order := SendProposal(targets, answers);
    var a := new Response[|responses|](i requires 0 <= i < |responses| => responses[i]);
    assert a[..] == responses;
    var n;
    n, errs := FilterResponses(a, faults, {});
    tprs := a[..n];
    if NilTarget !in targets {
      EveryOrderReports(answers, |Sent(targets)|, order);
    }
  }

  /** For every interleaving: a block is returned iff enough targets answered with status 200 and all
      that did agree; it is the block of one of them.  The query fails iff none did, with one error for
      each answer; otherwise the responses do not match. */
  method QueryConfigBlock(targets: seq<Target>, min: int, answers: seq<Outcome>) returns (r: Result)
    requires |targets| <= |answers|
    ensures |Sent(targets)| <= |answers|
    ensures r.Ok? <==> targets != [] && NilTarget !in targets && Agreement(answers, |Sent(targets)|, min)
    ensures r.Ok? ==> exists i | i in GoodSet(answers, |Sent(targets)|) :: answers[i].response.block == Some(r.block)
    ensures targets == [] ==> r == QueryFailed(Single(TargetsRequired))
    ensures targets != [] && NilTarget in targets ==> r.QueryFailed? && Faults(r.error) == [TargetIsNil]
    ensures targets != [] && NilTarget !in targets ==>
      var good := |GoodSet(answers, |Sent(targets)|)|;
      && (r.QueryFailed? <==> good == 0)
      && (r.QueryFailed? ==> AllReported(Faults(r.error), answers, |Sent(targets)|))
      && (r == NoMatch(MinNotPositive) <==> good > 0 && min <= 0)
      && (r == NoMatch(TooFewResponses) <==> 0 < good < min)
  {
    FirstOfEachShrinks(targets);
    if |targets| == 0 {
      return QueryFailed(Single(TargetsRequired));
    }
    var tprs, err;
    ghost var order;
    tprs, err, order := QueryChaincode(targets, answers);
    if NilTarget !in targets {
      GoodAreKept(targets, min, answers, order, err);
    }
    if !err.NoError? && |tprs| == 0 {
      return QueryFailed(err);
    }
    var matchErr := Match(tprs, min);
    if matchErr.Some? {
      return NoMatch(matchErr.value);
    }
    assert DataOf(tprs[0]).Some?;
    KeptMembers(answers, order, tprs[0]);
    ghost var i :| i in GoodIn(answers, order) && answers[i].response == tprs[0];
    assert i in GoodSet(answers, |Sent(targets)|);
    return Ok(tprs[0].block.value);
  }

  lemma GoodAreKept(targets: seq<Target>, min: int, answers: seq<Outcome>, order: seq<nat>, err: Error)
    requires targets != [] && |Sent(targets)| <= |answers| && Permutes(order, |Sent(targets)|) && Within(order, |answers|)
    requires AllReported(Faults(err), answers, |Sent(targets)|)
    ensures Matching(KeptOf(answers, order), min) <==> Agreement(answers, |Sent(targets)|, min)
    ensures |KeptOf(answers, order)| == |GoodSet(answers, |Sent(targets)|)|
    ensures |KeptOf(answers, order)| == 0 ==> !err.NoError?
  {
    var n := |Sent(targets)|;
    MatchingIff(answers, n, order, min);
    KeptAreGood(answers, order);
    assert GoodIn(answers, order) == GoodSet(answers, n);
    SentIsNotEmpty(targets);
    if GoodSet(answers, n) == {} {
      BadAnswersReport(Faults(err), answers, n);
    }
  }

  /** What agreement is, answer by answer. */
  lemma AgreementIff(answers: seq<Outcome>, n: nat, min: int)
    requires n <= |answers|
    ensures Agreement(answers, n, min) <==>
      && 0 < min <= |set i: nat | i < n && answers[i].Answer? && answers[i].response.status == 200|
      && exists tx :: forall i | 0 <= i < n && answers[i].Answer? && answers[i].response.status == 200 ::
           answers[i].response.block.Some? && answers[i].response.block.value.data == Some([tx])
  {
    assert GoodSet(answers, n) == set i: nat | i < n && answers[i].Answer? && answers[i].response.status == 200;
    if d :| AllCarry(answers, n, d) {
      assert d == [d[0]];
      forall i | 0 <= i < n && answers[i].Answer? && answers[i].response.status == 200
        ensures answers[i].response.block.Some? && answers[i].response.block.value.data == Some([d[0]])
      {
        assert i in GoodSet(answers, n);
      }
    }
    if tx :| forall i | 0 <= i < n && answers[i].Answer? && answers[i].response.status == 200 ::
               answers[i].response.block.Some? && answers[i].response.block.value.data == Some([tx]) {
      assert AllCarry(answers, n, [tx]);
    }
  }

  // ----- the quorum -----

  ghost function UrlsAt(ts: seq<Target>, indices: set<nat>): set<string>
    requires AllPeers(ts) && forall i | i in indices :: i < |ts|
  {
    set i | i in indices :: ts[i].url
  }

  lemma {:induction false} DistinctImages(ts: seq<Target>, indices: set<nat>)
    requires AllPeers(ts) && DistinctUrls(ts) && forall i | i in indices :: i < |ts|
    ensures |UrlsAt(ts, indices)| == |indices|
    decreases |indices|
  {
    if indices == {} {
      assert UrlsAt(ts, indices) == {};
    } else {
      var k :| k in indices;
      var rest := indices - {k};
      DistinctImages(ts, rest);
      OneMoreUrl(ts, rest, k);
      assert rest + {k} == indices;
    }
  }

  lemma OneMoreUrl(ts: seq<Target>, rest: set<nat>, k: nat)
    requires AllPeers(ts) && DistinctUrls(ts) && k < |ts| && k !in rest && forall i | i in rest :: i < |ts|
    ensures |UrlsAt(ts, rest + {k})| == |UrlsAt(ts, rest)| + 1
  {
    var u := ts[k].url;
    assert UrlsAt(ts, rest + {k}) == UrlsAt(ts, rest) + {u};
    assert u !in UrlsAt(ts, rest);
  }

  /** Behind a returned block stand at least `min` peers of different URLs, all of which were asked
      for and answered with status 200 and exactly its data. */
  lemma QuorumOfPeers(targets: seq<Target>, min: int, answers: seq<Outcome>, block: Block) returns (urls: set<string>)
    requires |targets| <= |answers| && AllPeers(targets)
    requires |Sent(targets)| <= |answers| && Agreement(answers, |Sent(targets)|, min)
    requires exists i | i in GoodSet(answers, |Sent(targets)|) :: answers[i].response.block == Some(block)
    ensures |urls| >= min && urls <= Urls(targets)
    ensures block.data.Some? && |block.data.value| == 1
    ensures forall u | u in urls :: exists i | 0 <= i < |Sent(targets)| ::
              && Sent(targets)[i].Peer? && Sent(targets)[i].url == u
              && answers[i].Answer? && answers[i].response.status == 200
              && answers[i].response.block.Some? && answers[i].response.block.value.data == block.data
  {
    var sent := Sent(targets);
    var good := GoodSet(answers, |sent|);
    OnePerUrl(targets);
    DistinctImages(sent, good);
    urls := UrlsAt(sent, good);
    var d :| AllCarry(answers, |sent|, d);
    var w :| w in good && answers[w].response.block == Some(block);
    assert DataOf(answers[w].response) == Some(d);
    forall u | u in urls
      ensures u in Urls(sent)
      ensures exists i | 0 <= i < |sent| :: sent[i].url == u && Good(answers[i]) && DataOf(answers[i].response) == block.data
    {
      var i :| i in good && sent[i].url == u;
      assert sent[i] in sent;
    }
  }
}
