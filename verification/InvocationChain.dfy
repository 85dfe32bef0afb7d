/**
 Merging the invocation chain of a request with the chaincodes and collections that the read/write
 sets of a proposal response reveal.
 */
module InvocationChain {
  import opened Collections

  datatype Call = Call(id: string, collections: seq<string>)

  // ----- specification -----

  /** The first call of a chaincode. */
  function First(chain: seq<Call>, id: string): (r: Option<Call>)
    ensures r.Some? <==> exists i | 0 <= i < |chain| :: chain[i].id == id
    ensures r.Some? ==> r.value in chain && r.value.id == id
  {
    if chain == [] then None
    else if chain[0].id == id then Some(chain[0])
    else First(chain[1..], id)
  }

  /** No earlier call of the chain is of the same chaincode. */
  ghost predicate IsFirst(chain: seq<Call>, i: nat)
    requires i < |chain|
  {
    forall k | 0 <= k < i :: chain[k].id != chain[i].id
  }

  ghost predicate Calls(chain: seq<Call>, id: string) {
    exists i | 0 <= i < |chain| :: chain[i].id == id
  }

  /** `have`, extended by each of `more` that is not yet there. */
  function AddMissing(have: seq<string>, more: seq<string>): seq<string>
    decreases more
  {
    if more == [] then have
    else AddMissing(if more[0] in have then have else have + [more[0]], more[1..])
  }

  ghost predicate Covers(have: seq<string>, more: seq<string>) {
    forall c | c in more :: c in have
  }

  function Merged(chain: seq<Call>, r: Call): Call {
    match First(chain, r.id)
    case None => r
    case Some(c) => Call(c.id, AddMissing(c.collections, r.collections))
  }

  /** The response reveals a chaincode, or a collection, that the chain does not have. */
  ghost predicate News(chain: seq<Call>, r: Call) {
    match First(chain, r.id)
    case None => true
    case Some(c) => !Covers(c.collections, r.collections)
  }

  type Filter = string -> bool

  function Kept(resp: seq<Call>, filter: Filter): seq<Call> {
    if resp == [] then []
    else (if filter(resp[0].id) then [resp[0]] else []) + Kept(resp[1..], filter)
  }

  function MergedAll(chain: seq<Call>, kept: seq<Call>): (m: seq<Call>)
    ensures |m| == |kept| && forall i | 0 <= i < |kept| :: m[i] == Merged(chain, kept[i])
  {
    seq(|kept|, i requires 0 <= i < |kept| => Merged(chain, kept[i]))
  }

  // ----- the program -----

  method Contains(values: seq<string>, value: string) returns (r: bool)
    ensures r <==> value in values
  {
    for i := 0 to |values|
      invariant value !in values[..i]
    {
      if values[i] == value {
        return true;
      }
    }
    return false;
  }

  method GetCCCall(chain: seq<Call>, id: string) returns (r: Option<Call>)
    ensures r == First(chain, id)
  {
    for i := 0 to |chain|
      invariant First(chain, id) == First(chain[i..], id)
    {
      if chain[i].id == id {
        return Some(chain[i]);
      }
      assert chain[i..][1..] == chain[i + 1..];
    }
    return None;
  }

  method Merge(c1: Call, c2: Call) returns (c: Call, merged: bool)
    ensures c == Call(c1.id, AddMissing(c1.collections, c2.collections))
    ensures merged <==> !Covers(c1.collections, c2.collections)
  {
    var collections := c1.collections;
    merged := false;
    for i := 0 to |c2.collections|
      invariant AddMissing(c1.collections, c2.collections) == AddMissing(collections, c2.collections[i..])
      invariant merged <==> !Covers(c1.collections, c2.collections[..i])
      invariant !merged ==> collections == c1.collections
      invariant Covers(collections, c1.collections)
    {
      var rest := c2.collections[i..];
      assert rest[1..] == c2.collections[i + 1..];
      assert c2.collections[..i + 1] == c2.collections[..i] + [c2.collections[i]];
      var has := Contains(collections, c2.collections[i]);
      if !has {
        collections := collections + [c2.collections[i]];
        merged := true;
      }
    }
    assert c2.collections[..|c2.collections|] == c2.collections;
    c := Call(c1.id, collections);
  }

  method MergeCCCall(chain: seq<Call>, r: Call) returns (c: Call, merged: bool)
    ensures c == Merged(chain, r) && (merged <==> News(chain, r))
    ensures !Calls(chain, r.id) ==> c == r && merged
    ensures forall i | 0 <= i < |chain| && chain[i].id == r.id && IsFirst(chain, i) ::
              MergesInto(chain[i], r, c) && (merged <==> exists x :: x in r.collections && x !in chain[i].collections)
  {
    var found := GetCCCall(chain, r.id);
    if found.Some? {
      c, merged := Merge(found.value, r);
    } else {
      c, merged := r, true;
    }
    MergedIff(chain, r);
  }

  /** `c` is `a` with the collections of `b` that it lacks behind its own. */
  ghost predicate MergesInto(a: Call, b: Call, c: Call) {
    && c.id == b.id && a.collections <= c.collections
    && forall x :: x in c.collections <==> x in a.collections || x in b.collections
  }

  /** The merged chain is the filtered response chain, call by call and in its order, each call with
      the first matching original merged in.  `changed` says whether one of them is of a chaincode that
      the chain does not call, or has a collection that the chain's first call of its chaincode does
      not have. */
  method MergeInvocationChains(chain: seq<Call>, resp: seq<Call>, filter: Filter) returns (m: seq<Call>, changed: bool)
    ensures m == MergedAll(chain, Kept(resp, filter))
    ensures forall k | 0 <= k < |m| && !Calls(chain, m[k].id) :: m[k] == Kept(resp, filter)[k]
    ensures forall k, i | 0 <= k < |m| && 0 <= i < |chain| && chain[i].id == m[k].id && IsFirst(chain, i) ::
              MergesInto(chain[i], Kept(resp, filter)[k], m[k])
    ensures changed <==> exists r | r in Kept(resp, filter) :: News(chain, r)
    ensures changed <==> exists r | r in resp && filter(r.id) ::
      || !Calls(chain, r.id)
      || exists i, x | 0 <= i < |chain| && x in r.collections ::
           chain[i].id == r.id && IsFirst(chain, i) && x !in chain[i].collections
  {
    m, changed := MergeEach(chain, resp, filter);
    ChangedIff(chain, resp, filter);
    forall k | 0 <= k < |m|
      ensures m[k].id == Kept(resp, filter)[k].id
      ensures !Calls(chain, m[k].id) ==> m[k] == Kept(resp, filter)[k]
      ensures forall i | 0 <= i < |chain| && chain[i].id == m[k].id && IsFirst(chain, i) ::
                MergesInto(chain[i], Kept(resp, filter)[k], m[k])
    {
      MergedIff(chain, Kept(resp, filter)[k]);
      MergedIsUnion(chain, Kept(resp, filter)[k]);
    }
  }

  /** The loop over the response chain. */
  method MergeEach(chain: seq<Call>, resp: seq<Call>, filter: Filter) returns (m: seq<Call>, changed: bool)
    ensures m == MergedAll(chain, Kept(resp, filter))
    ensures changed <==> exists r | r in Kept(resp, filter) :: News(chain, r)
  {
    m, changed := [], false;
    for i := 0 to |resp|
      invariant m == MergedAll(chain, Kept(resp[..i], filter))
      invariant changed <==> exists r | r in Kept(resp[..i], filter) :: News(chain, r)
    {
      KeptNext(resp, filter, i);
      if filter(resp[i].id) {
        var c, merged := MergeCCCall(chain, resp[i]);
        if merged {
          changed := true;
        }
        m := m + [c];
      }
    }
    assert resp[..|resp|] == resp;
  }

  /** The filter keeps a call that passes as often as it comes. */
  lemma {:induction false} KeptExactly(resp: seq<Call>, filter: Filter, r: Call)
    ensures multiset(Kept(resp, filter))[r] == if filter(r.id) then multiset(resp)[r] else 0
  {
    if resp != [] {
      assert resp == [resp[0]] + resp[1..];
      KeptExactly(resp[1..], filter, r);
    }
  }

  /** And it keeps them in order. */
  lemma {:induction false} KeptInOrder(resp: seq<Call>, filter: Filter)
    ensures Subsequence(Kept(resp, filter), resp)
    decreases |resp|
  {
    if resp == [] {
      NothingIsSubsequence(resp);
    } else {
      var n := |resp| - 1;
      KeptInOrder(resp[..n], filter);
      KeptNext(resp, filter, n);
      assert resp[..n + 1] == resp == resp[..n] + [resp[n]];
      SubsequenceNext(Kept(resp[..n], filter), resp[..n], resp[n]);
      assert filter(resp[n].id) || Kept(resp, filter) == Kept(resp[..n], filter);
    }
  }

  /** What merging one call yields, and whether it is news, said without looking calls up. */
  lemma MergedIff(chain: seq<Call>, r: Call)
    ensures !Calls(chain, r.id) ==> Merged(chain, r) == r && News(chain, r)
    ensures forall i | 0 <= i < |chain| && chain[i].id == r.id && IsFirst(chain, i) ::
      && MergesInto(chain[i], r, Merged(chain, r))
      && (News(chain, r) <==> exists x :: x in r.collections && x !in chain[i].collections)
  {
    forall i | 0 <= i < |chain| && chain[i].id == r.id && IsFirst(chain, i)
      ensures First(chain, r.id) == Some(chain[i])
      ensures MergesInto(chain[i], r, Merged(chain, r))
    {
      FirstAt(chain, i);
      AddMissingIsUnion(chain[i].collections, r.collections);
    }
  }

  lemma KeptIff(resp: seq<Call>, filter: Filter, r: Call)
    ensures r in Kept(resp, filter) <==> r in resp && filter(r.id)
  {
    KeptExactly(resp, filter, r);
    assert r in Kept(resp, filter) <==> r in multiset(Kept(resp, filter));
    assert r in resp <==> r in multiset(resp);
  }

  /** The call is of a new chaincode, or has a collection that the first call of its chaincode lacks. */
  lemma NewsIff(chain: seq<Call>, r: Call)
    ensures News(chain, r) <==>
      || !Calls(chain, r.id)
      || exists i, x | 0 <= i < |chain| && x in r.collections ::
           chain[i].id == r.id && IsFirst(chain, i) && x !in chain[i].collections
  {
    MergedIff(chain, r);
    if j :| 0 <= j < |chain| && chain[j].id == r.id {
      var i := FirstIndex(chain, j);
    }
  }

  lemma ChangedIff(chain: seq<Call>, resp: seq<Call>, filter: Filter)
    ensures (exists r | r in Kept(resp, filter) :: News(chain, r)) <==> exists r | r in resp && filter(r.id) ::
      || !Calls(chain, r.id)
      || exists i, x | 0 <= i < |chain| && x in r.collections ::
           chain[i].id == r.id && IsFirst(chain, i) && x !in chain[i].collections
  {
    forall r
      ensures r in Kept(resp, filter) <==> r in resp && filter(r.id)
    {
      KeptIff(resp, filter, r);
    }
    if r :| r in resp && filter(r.id) && News(chain, r) {
      NewsIff(chain, r);
    } else {
      forall r | r in resp && filter(r.id)
        ensures !News(chain, r)
        ensures Calls(chain, r.id)
        ensures !exists i, x | 0 <= i < |chain| && x in r.collections ::
                   chain[i].id == r.id && IsFirst(chain, i) && x !in chain[i].collections
      {
        NewsIff(chain, r);
      }
    }
  }

  lemma {:induction false} KeptSum(a: seq<Call>, b: seq<Call>, filter: Filter)
    ensures Kept(a + b, filter) == Kept(a, filter) + Kept(b, filter)
  {
    if a == [] {
      assert a + b == b;
    } else {
      assert (a + b)[1..] == a[1..] + b;
      KeptSum(a[1..], b, filter);
    }
  }

  lemma KeptNext(resp: seq<Call>, filter: Filter, i: nat)
    requires i < |resp|
    ensures Kept(resp[..i + 1], filter) == Kept(resp[..i], filter) + if filter(resp[i].id) then [resp[i]] else []
  {
    assert resp[..i + 1] == resp[..i] + [resp[i]];
    KeptSum(resp[..i], [resp[i]], filter);
    assert Kept([resp[i]], filter) == if filter(resp[i].id) then [resp[i]] else [];
  }

  // ----- what merging means -----

  /** The collections that are added come after the old ones, once each, and none was there. */
  lemma {:induction false} AddMissingIsUnion(have: seq<string>, more: seq<string>)
    ensures have <= AddMissing(have, more)
    ensures forall c :: c in AddMissing(have, more) <==> c in have || c in more
    ensures forall i, j | 0 <= i < j < |AddMissing(have, more)| && |have| <= j :: AddMissing(have, more)[i] != AddMissing(have, more)[j]
    decreases more
  {
    if more != [] {
      var next := if more[0] in have then have else have + [more[0]];
      AddMissingIsUnion(next, more[1..]);
    }
  }

  lemma {:induction false} NothingMissing(have: seq<string>, more: seq<string>)
    requires Covers(have, more)
    ensures AddMissing(have, more) == have
    decreases more
  {
    if more != [] {
      NothingMissing(have, more[1..]);
    }
  }

  /** A merged call keeps the response's chaincode; its collections are exactly those of the
      response and of the first call of that chaincode in the chain. */
  lemma MergedIsUnion(chain: seq<Call>, r: Call)
    ensures Merged(chain, r).id == r.id
    ensures forall c :: c in Merged(chain, r).collections <==>
              c in r.collections || (First(chain, r.id).Some? && c in First(chain, r.id).value.collections)
  {
    if First(chain, r.id).Some? {
      AddMissingIsUnion(First(chain, r.id).value.collections, r.collections);
    }
  }

  // ----- merging again -----

  lemma {:induction false} FirstAt(chain: seq<Call>, i: nat)
    requires i < |chain| && IsFirst(chain, i)
    ensures First(chain, chain[i].id) == Some(chain[i])
  {
    if i > 0 {
      assert chain[0].id != chain[i].id;
      assert forall k | 0 <= k < i - 1 :: chain[1..][k] == chain[k + 1];
      FirstAt(chain[1..], i - 1);
    }
  }

  lemma FirstIndex(chain: seq<Call>, j: nat) returns (i: nat)
    requires j < |chain|
    ensures i <= j && chain[i].id == chain[j].id && IsFirst(chain, i)
  {
    i := 0;
    while chain[i].id != chain[j].id
      invariant i <= j && forall k | 0 <= k < i :: chain[k].id != chain[j].id
      decreases j - i
    {
      i := i + 1;
    }
  }

  /** `b` brings no collection beyond those of `a` and of the first such call in the chain. */
  ghost predicate NothingBeyond(chain: seq<Call>, a: Call, b: Call) {
    forall c | c in b.collections ::
      || c in a.collections
      || (First(chain, a.id).Some? && c in First(chain, a.id).value.collections)
  }

  /** Later calls of a chaincode bring nothing beyond its first call. */
  ghost predicate Repetitive(chain: seq<Call>, kept: seq<Call>) {
    forall i, j | 0 <= i < j < |kept| && kept[i].id == kept[j].id ::
      IsFirst(kept, i) ==> NothingBeyond(chain, kept[i], kept[j])
  }

  lemma NothingBeyondIff(chain: seq<Call>, a: Call, b: Call)
    ensures NothingBeyond(chain, a, b) <==> Covers(Merged(chain, a).collections, b.collections)
  {
    MergedIsUnion(chain, a);
  }

  lemma RemergeAt(chain: seq<Call>, kept: seq<Call>, i: nat, j: nat)
    requires i <= j < |kept| && kept[i].id == kept[j].id && IsFirst(kept, i)
    ensures First(MergedAll(chain, kept), kept[j].id) == Some(Merged(chain, kept[i]))
    ensures News(MergedAll(chain, kept), kept[j]) <==> !Covers(Merged(chain, kept[i]).collections, kept[j].collections)
  {
    var m := MergedAll(chain, kept);
    forall k | 0 <= k < |kept|
      ensures m[k].id == kept[k].id
    {
      MergedIsUnion(chain, kept[k]);
    }
    FirstAt(m, i);
  }

  /** Merging the merged chain with the same response again reports no change exactly when the
      response is repetitive in this sense. */
  lemma RemergeUnchangedIff(chain: seq<Call>, kept: seq<Call>)
    ensures (forall r | r in kept :: !News(MergedAll(chain, kept), r)) <==> Repetitive(chain, kept)
  {
    var m := MergedAll(chain, kept);
    if Repetitive(chain, kept) {
      forall r | r in kept
        ensures !News(m, r)
      {
        var j :| 0 <= j < |kept| && kept[j] == r;
        var i := FirstIndex(kept, j);
        RemergeAt(chain, kept, i, j);
        NothingBeyondIff(chain, kept[i], kept[j]);
      }
    } else {
      var i, j :| 0 <= i < j < |kept| && kept[i].id == kept[j].id && IsFirst(kept, i) && !NothingBeyond(chain, kept[i], kept[j]);
      RemergeAt(chain, kept, i, j);
      NothingBeyondIff(chain, kept[i], kept[j]);
      assert News(m, kept[j]) && kept[j] in kept;
    }
  }

  /** With distinct chaincodes in the response, merging again gives the same chain. */
  lemma MergeIsIdempotent(chain: seq<Call>, kept: seq<Call>)
    requires forall i, j | 0 <= i < j < |kept| :: kept[i].id != kept[j].id
    ensures MergedAll(MergedAll(chain, kept), kept) == MergedAll(chain, kept)
    ensures forall r | r in kept :: !News(MergedAll(chain, kept), r)
  {
    var m := MergedAll(chain, kept);
    RemergeUnchangedIff(chain, kept);
    forall j | 0 <= j < |kept|
      ensures Merged(m, kept[j]) == m[j]
    {
      assert kept[j] in kept && !News(m, kept[j]);
      RemergeAt(chain, kept, j, j);
      NothingMissing(m[j].collections, kept[j].collections);
    }
  }

  /** Two calls of one chaincode with different collections: the second merge reports a change. */
  lemma RepeatedCallChangesAgain()
    ensures exists r | r in [Call("a", ["x"]), Call("a", ["y"])] ::
              News(MergedAll([], [Call("a", ["x"]), Call("a", ["y"])]), r)
  {
    var kept := [Call("a", ["x"]), Call("a", ["y"])];
    assert IsFirst(kept, 0) && "y" in kept[1].collections && "y" !in kept[0].collections;
    assert !NothingBeyond([], kept[0], kept[1]);
    RemergeUnchangedIff([], kept);
  }

  // ----- additional endorsers -----

  datatype Peer = Peer(url: string, mspID: string)

  ghost predicate HasMSP(peers: seq<Peer>, mspID: string) {
    exists i | 0 <= i < |peers| :: peers[i].mspID == mspID
  }

  ghost function Missing(endorsers: seq<Peer>, targets: seq<Peer>): seq<Peer> {
    if endorsers == [] then []
    else (if HasMSP(targets, endorsers[0].mspID) then [] else [endorsers[0]]) + Missing(endorsers[1..], targets)
  }

  /** An endorser is asked for as often as it is listed when its organization has not endorsed. */
  lemma {:induction false} MissingIs(endorsers: seq<Peer>, targets: seq<Peer>, e: Peer)
    ensures multiset(Missing(endorsers, targets))[e] ==
            if exists t | t in targets :: t.mspID == e.mspID then 0 else multiset(endorsers)[e]
  {
    if endorsers != [] {
      MissingIs(endorsers[1..], targets, e);
      assert endorsers == [endorsers[0]] + endorsers[1..];
      HasMSPIff(targets, endorsers[0].mspID);
    }
  }

  lemma HasMSPIff(peers: seq<Peer>, mspID: string)
    ensures HasMSP(peers, mspID) <==> exists t | t in peers :: t.mspID == mspID
  {
    if t :| t in peers && t.mspID == mspID {
      var i :| 0 <= i < |peers| && peers[i] == t;
    }
  }

  method ContainsMSP(peers: seq<Peer>, mspID: string) returns (r: bool)
    ensures r <==> HasMSP(peers, mspID)
  {
    for i := 0 to |peers|
      invariant forall k | 0 <= k < i :: peers[k].mspID != mspID
    {
      if peers[i].mspID == mspID {
        return true;
      }
    }
    return false;
  }

  /** Of the endorsers that the merged chain requires, those whose organization has not endorsed
      yet, in order; together with the present targets they cover every required organization. */
  method AdditionalEndorsers(targets: seq<Peer>, endorsers: seq<Peer>) returns (r: seq<Peer>)
    ensures r == Missing(endorsers, targets)
    ensures forall e :: multiset(r)[e] == if exists t | t in targets :: t.mspID == e.mspID then 0 else multiset(endorsers)[e]
    ensures Subsequence(r, endorsers)
    ensures forall e | e in endorsers :: exists t | t in targets + r :: t.mspID == e.mspID
  {
    r := [];
    NothingIsSubsequence(endorsers[..0]);
    for i := 0 to |endorsers|
      invariant Missing(endorsers, targets) == r + Missing(endorsers[i..], targets)
      invariant Subsequence(r, endorsers[..i])
    {
      var e := endorsers[i];
      MissingNext(endorsers, targets, r, i);
      SubsequenceNext(r, endorsers[..i], e);
      assert endorsers[..i + 1] == endorsers[..i] + [e];
      var has := ContainsMSP(targets, e.mspID);
      if !has {
        r := r + [e];
      }
    }
    assert endorsers[..|endorsers|] == endorsers && endorsers[|endorsers|..] == [];
    AllCovered(endorsers, targets);
  }

  lemma MissingNext(endorsers: seq<Peer>, targets: seq<Peer>, r: seq<Peer>, i: nat)
    requires i < |endorsers|
    ensures var e, rest := endorsers[i], Missing(endorsers[i + 1..], targets);
      r + Missing(endorsers[i..], targets) == if HasMSP(targets, e.mspID) then r + rest else r + [e] + rest
  {
    assert endorsers[i..][1..] == endorsers[i + 1..];
  }

  lemma AllCovered(endorsers: seq<Peer>, targets: seq<Peer>)
    ensures var r := Missing(endorsers, targets);
      && (forall e :: multiset(r)[e] == if exists t | t in targets :: t.mspID == e.mspID then 0 else multiset(endorsers)[e])
      && (forall e | e in endorsers :: exists t | t in targets + r :: t.mspID == e.mspID)
  {
    var r := Missing(endorsers, targets);
    forall e: Peer
      ensures multiset(r)[e] == if exists t | t in targets :: t.mspID == e.mspID then 0 else multiset(endorsers)[e]
    {
      MissingIs(endorsers, targets, e);
    }
    forall e | e in endorsers
      ensures exists t | t in targets + r :: t.mspID == e.mspID
    {
      if t :| t in targets && t.mspID == e.mspID {
        assert t in targets + r;
      } else {
        assert e in multiset(endorsers) && e in multiset(r) && e in targets + r;
      }
    }
  }
}
