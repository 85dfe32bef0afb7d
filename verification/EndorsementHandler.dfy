/**
 Endorsement in two phases: the selected endorsers are asked first; when the read/write set of their
 response reveals more chaincodes or collections than the request named, the endorsers that these
 need are selected and those of new organizations are asked too.
 */
module EndorsementHandler {
  import opened Collections
  import opened InvocationChain

  /** A proposal response: whether its payload decodes to a result, and the calls that its read/write
      sets decode to, None when they do not. */
  datatype Response = Response(endorser: Peer, hasResult: bool, calls: Option<seq<Call>>)

  datatype Fault = SelectionFailed | NoTargets | EndorsementFailed | BadPayload | AdditionalFailed

  /** What the selection service answers for a chain, and what peers answer to the proposal; None is
      an error. */
  type Selection = seq<Call> -> Option<seq<Peer>>
  type Transactor = seq<Peer> -> Option<seq<Response>>

  // ----- newInvocationChain -----

  /** The collections of the last call of a chaincode. */
  function LastCollections(id: string, calls: seq<Call>): seq<string> {
    if calls == [] then []
    else if calls[|calls| - 1].id == id then calls[|calls| - 1].collections
    else LastCollections(id, calls[..|calls| - 1])
  }

  function Others(id: string, calls: seq<Call>): seq<Call> {
    if calls == [] then []
    else Others(id, calls[..|calls| - 1]) + if calls[|calls| - 1].id == id then [] else [calls[|calls| - 1]]
  }

  /** The requested chaincode first, then the other calls of the request. */
  function NewChain(id: string, calls: seq<Call>): seq<Call> {
    [Call(id, LastCollections(id, calls))] + Others(id, calls)
  }

  method NewInvocationChain(id: string, calls: seq<Call>) returns (chain: seq<Call>)
    ensures chain == NewChain(id, calls)
  {
    chain := [Call(id, [])];
    for i := 0 to |calls|
      invariant chain == NewChain(id, calls[..i])
    {
      assert calls[..i + 1][..i] == calls[..i];
      if calls[i].id == chain[0].id {
        chain := chain[0 := Call(chain[0].id, calls[i].collections)];
      } else {
        chain := chain + [calls[i]];
      }
    }
    assert calls[..|calls|] == calls;
  }

  lemma {:induction false} OthersAre(id: string, calls: seq<Call>)
    ensures Subsequence(Others(id, calls), calls)
    ensures forall c :: multiset(Others(id, calls))[c] == if c.id == id then 0 else multiset(calls)[c]
    decreases |calls|
  {
    if calls == [] {
      NothingIsSubsequence(calls);
    } else {
      var init, c := calls[..|calls| - 1], calls[|calls| - 1];
      assert calls == init + [c];
      OthersAre(id, init);
      SubsequenceNext(Others(id, init), init, c);
      assert c.id != id || Others(id, calls) == Others(id, init);
    }
  }

  /** The chaincode of the request is called once, at the head, with the collections of its last call;
      every other call is there as often as the request has it, in order. */
  lemma NewChainIs(id: string, calls: seq<Call>)
    ensures var chain := NewChain(id, calls);
      && chain[0].id == id
      && (forall i | 0 <= i < |calls| && calls[i].id == id && (forall k | i < k < |calls| :: calls[k].id != id) ::
            chain[0].collections == calls[i].collections)
      && (!Calls(calls, id) ==> chain[0].collections == [])
      && Subsequence(chain[1..], calls)
      && (forall c :: multiset(chain[1..])[c] == if c.id == id then 0 else multiset(calls)[c])
  {
    OthersAre(id, calls);
    assert NewChain(id, calls)[1..] == Others(id, calls);
    forall i | 0 <= i < |calls| && calls[i].id == id && (forall k | i < k < |calls| :: calls[k].id != id)
      ensures LastCollections(id, calls) == calls[i].collections
    {
      LastAt(id, calls, i);
    }
    if !Calls(calls, id) {
      NoneLast(id, calls);
    }
  }

  lemma {:induction false} LastAt(id: string, calls: seq<Call>, i: nat)
    requires i < |calls| && calls[i].id == id && forall k | i < k < |calls| :: calls[k].id != id
    ensures LastCollections(id, calls) == calls[i].collections
    decreases |calls|
  {
    if i < |calls| - 1 {
      LastAt(id, calls[..|calls| - 1], i);
    }
  }

  lemma {:induction false} NoneLast(id: string, calls: seq<Call>)
    requires forall i | 0 <= i < |calls| :: calls[i].id != id
    ensures LastCollections(id, calls) == []
    decreases |calls|
  {
    if calls != [] {
      NoneLast(id, calls[..|calls| - 1]);
    }
  }

  lemma {:induction false} FirstOther(id: string, calls: seq<Call>, x: string)
    requires x != id
    ensures First(Others(id, calls), x) == First(calls, x)
    decreases |calls|
  {
    if calls != [] {
      var n := |calls| - 1;
      FirstOther(id, calls[..n], x);
      assert calls == calls[..n] + [calls[n]];
      FirstOfSum(calls[..n], calls[n], x);
      FirstOfSum(Others(id, calls[..n]), calls[n], x);
      assert calls[n].id != id || Others(id, calls) == Others(id, calls[..n]);
    }
  }

  lemma {:induction false} FirstOfSum(calls: seq<Call>, c: Call, x: string)
    ensures First(calls + [c], x) == if First(calls, x).Some? then First(calls, x) else if c.id == x then Some(c) else None
  {
    if calls == [] {
      assert calls + [c] == [c];
    } else {
      assert (calls + [c])[1..] == calls[1..] + [c];
      FirstOfSum(calls[1..], c, x);
    }
  }

  /** What was revealed once is not news to the chain made of it: with distinct chaincodes in the
      response, handling the request again asks nobody else on its account. */
  lemma RevealedOnce(id: string, chain: seq<Call>, kept: seq<Call>, r: Call)
    requires forall i, j | 0 <= i < j < |kept| :: kept[i].id != kept[j].id
    requires r in kept
    ensures !News(NewChain(id, MergedAll(chain, kept)), r)
  {
    var m := MergedAll(chain, kept);
    var again := NewChain(id, m);
    var j :| 0 <= j < |kept| && kept[j] == r;
    forall k | 0 <= k < |kept|
      ensures m[k].id == kept[k].id
    {
      MergedIsUnion(chain, kept[k]);
    }
    MergedIsUnion(chain, r);
    if r.id == id {
      LastAt(id, m, j);
      assert First(again, id) == Some(again[0]);
    } else {
      FirstOther(id, m, r.id);
      assert again[1..] == Others(id, m);
      FirstAt(m, j);
    }
  }

  // ----- Handle -----

  class RequestContext {
    const chaincodeID: string
    const ccFilter: Option<Filter>
    var invocationChain: seq<Call>
    var targets: seq<Peer>
    var responses: seq<Response>
    var error: Option<Fault>

    constructor (chaincodeID: string, ccFilter: Option<Filter>, invocationChain: seq<Call>, targets: seq<Peer>)
      ensures this.chaincodeID == chaincodeID && this.ccFilter == ccFilter
      ensures this.invocationChain == invocationChain && this.targets == targets
      ensures responses == [] && error.None?
    {
      this.chaincodeID, this.ccFilter := chaincodeID, ccFilter;
      this.invocationChain, this.targets := invocationChain, targets;
      responses, error := [], None;
    }

    /** System chaincodes never count; the caller's filter may exclude more. */
    function CCFilter(): Filter {
      (id: string) => id != "lscc" && id != "_lifecycle" && (ccFilter.Some? ==> ccFilter.value(id))
    }

    /** The merged chain, when the first response reveals anything that the chain does not have. */
    ghost function Revealed(chain: seq<Call>, first: seq<Response>): Option<seq<Call>> {
      if first == [] || first[0].calls.None? then None
      else
        var kept := Kept(first[0].calls.value, CCFilter());
        if exists call :: call in kept && News(chain, call) then Some(MergedAll(chain, kept)) else None
    }

    /** A response reveals more iff it calls a new chaincode that is no system chaincode and not
        excluded, or such a chaincode with a new collection; no other is in the merged chain. */
    lemma RevealedIff(chain: seq<Call>, first: seq<Response>)
      requires first != [] && first[0].calls.Some?
      ensures Revealed(chain, first).Some? <==> exists r | r in first[0].calls.value ::
        && r.id != "lscc" && r.id != "_lifecycle" && (ccFilter.Some? ==> ccFilter.value(r.id))
        && (|| !Calls(chain, r.id)
            || exists i, x | 0 <= i < |chain| && x in r.collections ::
                 chain[i].id == r.id && IsFirst(chain, i) && x !in chain[i].collections)
      ensures Revealed(chain, first).Some? ==> forall c | c in Revealed(chain, first).value ::
        c.id != "lscc" && c.id != "_lifecycle" && (ccFilter.Some? ==> ccFilter.value(c.id))
    {
      var calls, filter := first[0].calls.value, CCFilter();
      ChangedIff(chain, calls, filter);
      forall k | 0 <= k < |Kept(calls, filter)|
        ensures filter(Merged(chain, Kept(calls, filter)[k]).id)
      {
        KeptIff(calls, filter, Kept(calls, filter)[k]);
        MergedIsUnion(chain, Kept(calls, filter)[k]);
      }
    }

    /** Every endorser of another organization than those asked is asked for, in order, and no other. */
    ghost predicate Completes(more: seq<Peer>, endorsers: seq<Peer>, asked: seq<Peer>) {
      && Subsequence(more, endorsers)
      && (forall e | e in more :: !exists t | t in asked :: t.mspID == e.mspID)
      && (forall e | e in endorsers :: exists t | t in asked + more :: t.mspID == e.mspID)
    }

    /** getAdditionalEndorsers: None is an error, which the caller only logs.  A merged chain that has
        news is stored in the request before the selection is asked, and stays there when that fails. */
    method GetAdditionalEndorsers(chain: seq<Call>, select: Selection) returns (r: Option<seq<Peer>>)
      requires responses != []
      modifies this`invocationChain
      ensures Revealed(chain, responses).None? ==> (r.None? || r == Some([])) && invocationChain == old(invocationChain)
      ensures Revealed(chain, responses).Some? ==>
        && invocationChain == Revealed(chain, responses).value
        && match select(NewChain(chaincodeID, invocationChain))
           case None => r.None?
           case Some(endorsers) => r.Some? && Completes(r.value, endorsers, targets)
    {
      if responses[0].calls.None? {
        return None;
      }
      var merged, found := MergeInvocationChains(chain, responses[0].calls.value, CCFilter());
      if !found {
        return Some([]);
      }
      invocationChain := merged;
      r := SelectMore(select);
    }

    method SelectMore(select: Selection) returns (r: Option<seq<Peer>>)
      ensures match select(NewChain(chaincodeID, invocationChain))
              case None => r.None?
              case Some(endorsers) => r.Some? && Completes(r.value, endorsers, targets)
    {
      var next := NewInvocationChain(chaincodeID, invocationChain);
      var selected := select(next);
      if selected.None? {
        return None;
      }
      var additional := AdditionalEndorsers(targets, selected.value);
      forall e | e in additional
        ensures !exists t | t in targets :: t.mspID == e.mspID
      {
        assert e in multiset(additional);
      }
      return Some(additional);
    }

    /** EndorsementHandler.Handle, as far as it concerns endorsers. */
    method Endorse(send: Transactor)
      modifies this`responses, this`error
      ensures targets == [] ==> error == Some(NoTargets) && responses == old(responses)
      ensures targets != [] && send(targets).None? ==> error == Some(EndorsementFailed) && responses == old(responses)
      ensures targets != [] && send(targets).Some? ==>
        && responses == send(targets).value
        && error == if responses != [] && !responses[0].hasResult then Some(BadPayload) else old(error)
    {
      if |targets| == 0 {
        error := Some(NoTargets);
        return;
      }
      var answers := send(targets);
      if answers.None? {
        error := Some(EndorsementFailed);
        return;
      }
      responses := answers.value;
      if |responses| > 0 && !responses[0].hasResult {
        error := Some(BadPayload);
      }
    }

    /** Handle; the result says whether the next handler runs.  With targets given by the caller only
        those are asked.  Otherwise the endorsers selected for the request's chain are, and when their
        response reveals more than the chain has, also those endorsers selected for the merged chain
        whose organizations were not asked before: then every organization that the selection
        requires has been asked.  A second selection that fails is no error. */
    method Handle(select: Selection, again: Selection, send: Transactor, sendMore: Transactor)
      returns (next: bool, ghost first: seq<Peer>, ghost more: seq<Peer>)
      requires error.None?
      modifies this
      ensures next <==> error.None?
      ensures old(targets) != [] ==>
        && targets == old(targets) && invocationChain == old(invocationChain)
        && (next ==> send(targets).Some? && responses == send(targets).value)
      ensures old(targets) == [] && select(NewChain(chaincodeID, old(invocationChain))).None? ==> error == Some(SelectionFailed)
      ensures next && old(targets) == [] ==>
        && select(NewChain(chaincodeID, old(invocationChain))) == Some(first)
        && first != [] && send(first).Some? && (more != [] ==> sendMore(more).Some?)
        && responses == send(first).value + (if more == [] then [] else sendMore(more).value)
        && targets == (if more == [] then first else more)
        && var revealed := Revealed(NewChain(chaincodeID, old(invocationChain)), send(first).value);
           && (revealed.None? ==> more == [] && invocationChain == old(invocationChain))
           && (revealed.Some? ==>
                 && invocationChain == revealed.value
                 && match again(NewChain(chaincodeID, revealed.value))
                    case None => more == []
                    case Some(endorsers) => Completes(more, endorsers, first))
    {
      first, more := [], [];
      var given := targets;
      var chain := [];
      if |given| == 0 {
        chain := NewInvocationChain(chaincodeID, invocationChain);
        var selected := select(chain);
        if selected.None? {
          error := Some(SelectionFailed);
          return false, first, more;
        }
        targets := selected.value;
      }
      first := targets;
      Endorse(send);
      if error.Some? {
        return false, first, more;
      }
      if |given| == 0 && |responses| > 0 {
        var additional := GetAdditionalEndorsers(chain, again);
        if additional.Some? && |additional.value| > 0 {
          more := additional.value;
          targets := additional.value;
          var answers := sendMore(additional.value);
          if answers.None? {
            error := Some(AdditionalFailed);
            return false, first, more;
          }
          responses := responses + answers.value;
        }
      }
      next := true;
    }
  }
}
