/**
 Agreement of committed chaincode definitions: the answers of all peers must carry one status and
 equal payloads, where a list of definitions is sorted by name before it is compared.
 */
module Lifecycle {
  import opened Collections
  import opened StringOrder

  datatype Response<+P> = Response(status: int, payload: P)
  datatype Verdict = Match | UnmarshalFailed | StatusMismatch | PayloadMismatch

  // ----- verifyResponsesMatch -----

  /** Responses i and j say the same. */
  ghost predicate Agree<P, M>(rs: seq<Response<P>>, unmarshal: P -> Option<M>, i: nat, j: nat)
    requires i < |rs| && j < |rs|
  {
    rs[i].status == rs[j].status && unmarshal(rs[i].payload) == unmarshal(rs[j].payload)
  }

  ghost predicate AllAgree<P, M>(rs: seq<Response<P>>, unmarshal: P -> Option<M>) {
    && (forall i | 0 <= i < |rs| :: unmarshal(rs[i].payload).Some?)
    && (forall i, j | 0 <= i < |rs| && 0 <= j < |rs| :: Agree(rs, unmarshal, i, j))
  }

  /** What is wrong with response k, when all before it agree. */
  ghost function Reason<P, M>(rs: seq<Response<P>>, unmarshal: P -> Option<M>, k: nat): Verdict
    requires k < |rs|
  {
    if unmarshal(rs[k].payload).None? then UnmarshalFailed
    else if k == 0 then Match
    else if rs[0].status != rs[k].status then StatusMismatch
    else if unmarshal(rs[0].payload) != unmarshal(rs[k].payload) then PayloadMismatch
    else Match
  }

  /** Each response is compared with its predecessor only; that decides pairwise agreement of all,
      and the verdict is the first response's that differs from the first. */
  method VerifyResponsesMatch<P, M(==)>(rs: seq<Response<P>>, unmarshal: P -> Option<M>) returns (v: Verdict)
    ensures v.Match? <==> AllAgree(rs, unmarshal)
    ensures !v.Match? ==> exists k | 0 <= k < |rs| :: AllAgree(rs[..k], unmarshal) && v == Reason(rs, unmarshal, k)
    ensures v.Match? <==> forall i | 0 <= i < |rs| ::
      unmarshal(rs[i].payload).Some? && rs[i].status == rs[0].status && unmarshal(rs[i].payload) == unmarshal(rs[0].payload)
    ensures v.UnmarshalFailed? ==> exists k | 0 <= k < |rs| :: unmarshal(rs[k].payload).None?
    ensures v.StatusMismatch? ==> exists k | 0 <= k < |rs| :: rs[k].status != rs[0].status
    ensures v.PayloadMismatch? ==> exists k | 0 <= k < |rs| ::
              rs[k].status == rs[0].status && unmarshal(rs[k].payload).Some? && unmarshal(rs[k].payload) != unmarshal(rs[0].payload)
  {
    AllAgreeIff(rs, unmarshal);
    var lastStatus := 0;
    var lastResponse: Option<M> := None;
    var k := 0;
    while k < |rs|
      invariant 0 <= k <= |rs|
      invariant lastResponse.None? <==> k == 0
      invariant k > 0 ==> lastStatus == rs[k - 1].status && lastResponse == unmarshal(rs[k - 1].payload)
      invariant AllAgree(rs[..k], unmarshal)
    {
      var m := unmarshal(rs[k].payload);
      assert k > 0 ==> Agree(rs[..k], unmarshal, 0, k - 1);
      if m.None? {
        assert Reason(rs, unmarshal, k) == UnmarshalFailed;
        return UnmarshalFailed;
      }
      if lastResponse.Some? {
        if lastStatus != rs[k].status {
          assert Reason(rs, unmarshal, k) == StatusMismatch;
          assert !Agree(rs, unmarshal, k - 1, k);
          return StatusMismatch;
        }
        if lastResponse.value != m.value {
          assert Reason(rs, unmarshal, k) == PayloadMismatch;
          assert !Agree(rs, unmarshal, k - 1, k);
          return PayloadMismatch;
        }
      }
      Extend(rs, unmarshal, k);
      lastResponse := m;
      lastStatus := rs[k].status;
      k := k + 1;
    }
    assert rs[..k] == rs;
    return Match;
  }

  /** Pairwise agreement is agreement with the first. */
  lemma AllAgreeIff<P, M>(rs: seq<Response<P>>, unmarshal: P -> Option<M>)
    ensures AllAgree(rs, unmarshal) <==> forall i | 0 <= i < |rs| ::
      unmarshal(rs[i].payload).Some? && rs[i].status == rs[0].status && unmarshal(rs[i].payload) == unmarshal(rs[0].payload)
  {
    if AllAgree(rs, unmarshal) {
      forall i | 0 <= i < |rs|
        ensures rs[i].status == rs[0].status && unmarshal(rs[i].payload) == unmarshal(rs[0].payload)
      {
        assert Agree(rs, unmarshal, i, 0);
      }
    }
  }

  lemma Extend<P, M>(rs: seq<Response<P>>, unmarshal: P -> Option<M>, k: nat)
    requires k < |rs| && AllAgree(rs[..k], unmarshal) && Reason(rs, unmarshal, k).Match?
    ensures AllAgree(rs[..k + 1], unmarshal)
  {
    var s := rs[..k + 1];
    forall i, j | 0 <= i < |s| && 0 <= j < |s|
      ensures Agree(s, unmarshal, i, j)
    {
      assert i < k ==> Agree(rs[..k], unmarshal, 0, i);
      assert j < k ==> Agree(rs[..k], unmarshal, 0, j);
    }
  }

  // ----- definitions sorted by name -----

  datatype Definition<+D> = Definition(name: string, details: D)

  /** Names descend; the sort promises nothing about definitions of one name. */
  ghost predicate Descending<D>(ds: seq<Definition<D>>) {
    forall i, j | 0 <= i < j < |ds| :: !Less(ds[i].name, ds[j].name)
  }

  /** What sort.Slice promises: a permutation in the order of the comparison. */
  ghost predicate IsSortOf<D>(given: seq<Definition<D>>, sorted: seq<Definition<D>>) {
    multiset(given) == multiset(sorted) && Descending(sorted)
  }

  /** No two different definitions share a name. */
  ghost predicate NamesDetermine<D>(ds: seq<Definition<D>>) {
    forall i, j | 0 <= i < |ds| && 0 <= j < |ds| :: ds[i].name == ds[j].name ==> ds[i] == ds[j]
  }

  lemma InMultiset<T>(s: seq<T>, x: T)
    ensures x in s <==> x in multiset(s)
  {
  }

  lemma TailMultiset<T>(s: seq<T>)
    requires s != []
    ensures multiset(s[1..]) == multiset(s) - multiset{s[0]}
  {
    assert s == [s[0]] + s[1..];
  }

  lemma SameSize<T>(a: seq<T>, b: seq<T>)
    requires multiset(a) == multiset(b)
    ensures |a| == |b|
  {
    assert |a| == |multiset(a)| == |multiset(b)|;
  }

  lemma NamesDetermineOf<D>(a: seq<Definition<D>>, b: seq<Definition<D>>)
    requires NamesDetermine(a) && multiset(a) == multiset(b)
    ensures NamesDetermine(b)
  {
    forall i, j | 0 <= i < |b| && 0 <= j < |b| && b[i].name == b[j].name
      ensures b[i] == b[j]
    {
      InMultiset(b, b[i]); InMultiset(a, b[i]);
      InMultiset(b, b[j]); InMultiset(a, b[j]);
    }
  }

  /** The sorted form is canonical. */
  lemma {:induction false} SortIsCanonical<D>(a: seq<Definition<D>>, b: seq<Definition<D>>)
    requires Descending(a) && Descending(b) && multiset(a) == multiset(b) && NamesDetermine(a)
    ensures a == b
    decreases |a|
  {
    SameSize(a, b);
    if a != [] {
      SameHead(a, b);
      var a', b' := a[1..], b[1..];
      assert multiset(a') == multiset(b') by {
        TailMultiset(a);
        TailMultiset(b);
      }
      SortIsCanonical(a', b');
      assert a == [a[0]] + a' && b == [b[0]] + b';
    }
  }

  lemma SameHead<D>(a: seq<Definition<D>>, b: seq<Definition<D>>)
    requires |a| > 0 && |b| > 0
    requires Descending(a) && Descending(b) && multiset(a) == multiset(b) && NamesDetermine(a)
    ensures a[0] == b[0]
  {
    InMultiset(a, a[0]); InMultiset(b, a[0]);
    InMultiset(b, b[0]); InMultiset(a, b[0]);
    var j :| 0 <= j < |b| && b[j] == a[0];
    var k :| 0 <= k < |a| && a[k] == b[0];
    Trichotomy(a[0].name, b[0].name);
  }

  // ----- every list has a sort, and some have several -----

  function Insert<D>(d: Definition<D>, ds: seq<Definition<D>>): seq<Definition<D>> {
    if ds == [] || !Less(d.name, ds[0].name) then [d] + ds
    else [ds[0]] + Insert(d, ds[1..])
  }

  function Sort<D>(ds: seq<Definition<D>>): seq<Definition<D>> {
    if ds == [] then [] else Insert(ds[0], Sort(ds[1..]))
  }

  /** x bounds the names of ds from above. */
  ghost predicate Bounds<D>(x: string, ds: seq<Definition<D>>) {
    forall i | 0 <= i < |ds| :: !Less(x, ds[i].name)
  }

  lemma DescendingCons<D>(d: Definition<D>, ds: seq<Definition<D>>)
    requires Bounds(d.name, ds) && Descending(ds)
    ensures Descending([d] + ds)
  {
  }

  lemma {:induction false} InsertKeeps<D>(d: Definition<D>, ds: seq<Definition<D>>)
    ensures multiset(Insert(d, ds)) == multiset{d} + multiset(ds)
  {
    if ds != [] && Less(d.name, ds[0].name) {
      InsertKeeps(d, ds[1..]);
      TailMultiset(ds);
    }
  }

  lemma {:induction false} InsertBounds<D>(x: string, d: Definition<D>, ds: seq<Definition<D>>)
    requires !Less(x, d.name) && Bounds(x, ds)
    ensures Bounds(x, Insert(d, ds))
  {
    if ds != [] && Less(d.name, ds[0].name) {
      InsertBounds(x, d, ds[1..]);
    }
  }

  lemma {:induction false} InsertSorts<D>(d: Definition<D>, ds: seq<Definition<D>>)
    requires Descending(ds)
    ensures Descending(Insert(d, ds))
  {
    if ds == [] {
    } else if !Less(d.name, ds[0].name) {
      forall i | 0 <= i < |ds|
        ensures !Less(d.name, ds[i].name)
      {
        Chain(d.name, ds[0].name, ds[i].name);
      }
      DescendingCons(d, ds);
    } else {
      InsertSorts(d, ds[1..]);
      Trichotomy(d.name, ds[0].name);
      InsertBounds(ds[0].name, d, ds[1..]);
      DescendingCons(ds[0], Insert(d, ds[1..]));
    }
  }

  lemma Chain(a: string, b: string, c: string)
    requires !Less(a, b) && (b == c || !Less(b, c))
    ensures !Less(a, c)
  {
    Trichotomy(a, b);
    Trichotomy(b, c);
    if Less(a, c) && Less(c, b) {
      Transitive(a, c, b);
    }
  }

  lemma {:induction false} SortSorts<D>(ds: seq<Definition<D>>)
    ensures IsSortOf(ds, Sort(ds))
  {
    if ds != [] {
      SortSorts(ds[1..]);
      InsertSorts(ds[0], Sort(ds[1..]));
      InsertKeeps(ds[0], Sort(ds[1..]));
      TailMultiset(ds);
    }
  }

  lemma SwapKeepsMultiset<T>(s: seq<T>, p: nat, q: nat)
    requires p < q < |s|
    ensures multiset(s[p := s[q]][q := s[p]]) == multiset(s)
  {
  }

  /** Two different definitions of one name can be sorted either way round. */
  lemma OtherSort<D>(a: seq<Definition<D>>) returns (b: seq<Definition<D>>)
    requires Descending(a) && !NamesDetermine(a)
    ensures IsSortOf(a, b) && a != b
  {
    var i, j :| 0 <= i < |a| && 0 <= j < |a| && a[i].name == a[j].name && a[i] != a[j];
    var p, q := if i < j then i else j, if i < j then j else i;
    b := a[p := a[q]][q := a[p]];
    SwapKeepsMultiset(a, p, q);
    assert forall k | 0 <= k < |a| :: b[k].name == a[k].name;
  }

  /** Two peers' lists compare equal, however each is sorted, exactly when they hold the same
      definitions and no two different ones share a name. */
  lemma CanonicalIff<D>(a: seq<Definition<D>>, b: seq<Definition<D>>)
    ensures (forall a', b' | IsSortOf(a, a') && IsSortOf(b, b') :: a' == b') <==>
            (multiset(a) == multiset(b) && NamesDetermine(a))
  {
    if multiset(a) == multiset(b) && NamesDetermine(a) {
      forall a', b' | IsSortOf(a, a') && IsSortOf(b, b')
        ensures a' == b'
      {
        NamesDetermineOf(a, a');
        SortIsCanonical(a', b');
      }
    } else {
      SortSorts(a);
      SortSorts(b);
      if multiset(a) == multiset(b) {
        var sorted := Sort(a);
        if NamesDetermine(sorted) {
          NamesDetermineOf(sorted, a);
        }
        var other := OtherSort(sorted);
        assert IsSortOf(a, other) && IsSortOf(b, sorted);
      } else {
        assert Sort(a) != Sort(b);
      }
    }
  }

  // ----- the whole check -----

  /** unmarshalInOrderCCDefResults for a query of all definitions. */
  function InOrder<P, D>(decode: P -> Option<seq<Definition<D>>>, sort: seq<Definition<D>> -> seq<Definition<D>>):
    P -> Option<seq<Definition<D>>>
  {
    (p: P) => match decode(p) case None => None case Some(ds) => Some(sort(ds))
  }

  /** Responses i and j carry one status and the same definitions, in whatever order. */
  ghost predicate SameDefinitions<P, D>(rs: seq<Response<P>>, decode: P -> Option<seq<Definition<D>>>, i: nat, j: nat)
    requires i < |rs| && j < |rs|
  {
    && rs[i].status == rs[j].status
    && decode(rs[i].payload).Some? && decode(rs[j].payload).Some?
    && multiset(decode(rs[i].payload).value) == multiset(decode(rs[j].payload).value)
  }

  /** Peers may list their definitions in any order.  Whatever the sort by name does with equal names,
      only answers that decode, carry one status and hold the same definitions are accepted; and all
      such answers are, when no two different definitions of a list share a name. */
  lemma AcceptedIff<P, D>(rs: seq<Response<P>>, decode: P -> Option<seq<Definition<D>>>,
                          sort: seq<Definition<D>> -> seq<Definition<D>>)
    requires forall ds :: IsSortOf(ds, sort(ds))
    ensures AllAgree(rs, InOrder(decode, sort)) ==> AllSame(rs, decode)
    ensures AllSame(rs, decode) && AllNamesDetermine(rs, decode) ==> AllAgree(rs, InOrder(decode, sort))
  {
    var f := InOrder(decode, sort);
    forall i, j | 0 <= i < |rs| && 0 <= j < |rs| && decode(rs[i].payload).Some? && decode(rs[j].payload).Some?
      ensures Agree(rs, f, i, j) ==> SameDefinitions(rs, decode, i, j)
      ensures SameDefinitions(rs, decode, i, j) && NamesDetermine(decode(rs[i].payload).value) ==> Agree(rs, f, i, j)
    {
      var a, b := decode(rs[i].payload).value, decode(rs[j].payload).value;
      assert IsSortOf(a, sort(a)) && IsSortOf(b, sort(b));
      CanonicalIff(a, b);
    }
    forall i | 0 <= i < |rs|
      ensures f(rs[i].payload).Some? <==> decode(rs[i].payload).Some?
      ensures SameDefinitions(rs, decode, i, i) ==> f(rs[i].payload).Some?
    {
    }
  }

  ghost predicate AllSame<P, D>(rs: seq<Response<P>>, decode: P -> Option<seq<Definition<D>>>) {
    forall i, j | 0 <= i < |rs| && 0 <= j < |rs| :: SameDefinitions(rs, decode, i, j)
  }

  ghost predicate AllNamesDetermine<P, D>(rs: seq<Response<P>>, decode: P -> Option<seq<Definition<D>>>) {
    forall i | 0 <= i < |rs| :: decode(rs[i].payload).Some? ==> NamesDetermine(decode(rs[i].payload).value)
  }

  /** What the comparison is given: for each response its status and some sort of its definitions. */
  ghost predicate Sorts<P, D>(rs: seq<Response<P>>, decode: P -> Option<seq<Definition<D>>>,
                              sorted: seq<Response<Option<seq<Definition<D>>>>>)
  {
    && |sorted| == |rs|
    && forall i | 0 <= i < |rs| ::
         && sorted[i].status == rs[i].status
         && match decode(rs[i].payload)
            case None => sorted[i].payload.None?
            case Some(ds) => sorted[i].payload.Some? && IsSortOf(ds, sorted[i].payload.value)
  }

  function Itself<M>(): Option<M> -> Option<M> {
    (m: Option<M>) => m
  }

  /** The sort is free to order definitions of one name either way.  Answers are accepted for certain
      iff they hold the same definitions and, when there is more than one, no two different
      definitions share a name. */
  lemma CertainIff<P, D>(rs: seq<Response<P>>, decode: P -> Option<seq<Definition<D>>>)
    ensures (forall sorted | Sorts(rs, decode, sorted) :: AllAgree(sorted, Itself())) <==>
            AllSame(rs, decode) && (|rs| > 1 ==> AllNamesDetermine(rs, decode))
  {
    if AllSame(rs, decode) && (|rs| > 1 ==> AllNamesDetermine(rs, decode)) {
      forall sorted | Sorts(rs, decode, sorted)
        ensures AllAgree(sorted, Itself())
      {
        SortsAgree(rs, decode, sorted);
      }
    } else {
      var sorted := Disagreement(rs, decode);
      assert Sorts(rs, decode, sorted) && !AllAgree(sorted, Itself());
    }
  }

  lemma SortsAgree<P, D>(rs: seq<Response<P>>, decode: P -> Option<seq<Definition<D>>>,
                         sorted: seq<Response<Option<seq<Definition<D>>>>>)
    requires AllSame(rs, decode) && (|rs| > 1 ==> AllNamesDetermine(rs, decode)) && Sorts(rs, decode, sorted)
    ensures AllAgree(sorted, Itself())
  {
    forall i | 0 <= i < |rs|
      ensures Itself()(sorted[i].payload).Some?
    {
      assert SameDefinitions(rs, decode, i, i);
    }
    forall i, j | 0 <= i < |rs| && 0 <= j < |rs|
      ensures Agree(sorted, Itself(), i, j)
    {
      if i != j {
        assert SameDefinitions(rs, decode, i, j);
        CanonicalIff(decode(rs[i].payload).value, decode(rs[j].payload).value);
      }
    }
  }

  function SortedBy<P, D>(r: Response<P>, decode: P -> Option<seq<Definition<D>>>): Response<Option<seq<Definition<D>>>> {
    Response(r.status, match decode(r.payload) case None => None case Some(ds) => Some(Sort(ds)))
  }

  lemma Disagreement<P, D>(rs: seq<Response<P>>, decode: P -> Option<seq<Definition<D>>>)
    returns (sorted: seq<Response<Option<seq<Definition<D>>>>>)
    requires !(AllSame(rs, decode) && (|rs| > 1 ==> AllNamesDetermine(rs, decode)))
    ensures Sorts(rs, decode, sorted) && !AllAgree(sorted, Itself())
  {
    sorted := SortEach(rs, decode);
    if AllAgree(sorted, Itself()) {
      SortedAgree(rs, decode, sorted);
      var k :| 0 <= k < |rs| && decode(rs[k].payload).Some? && !NamesDetermine(decode(rs[k].payload).value);
      sorted := SortOtherwise(rs, decode, sorted, k, if k == 0 then 1 else 0);
    }
  }

  lemma SortEach<P, D>(rs: seq<Response<P>>, decode: P -> Option<seq<Definition<D>>>)
    returns (sorted: seq<Response<Option<seq<Definition<D>>>>>)
    ensures Sorts(rs, decode, sorted)
  {
    sorted := seq(|rs|, i requires 0 <= i < |rs| => SortedBy(rs[i], decode));
    forall i | 0 <= i < |rs| && decode(rs[i].payload).Some?
      ensures IsSortOf(decode(rs[i].payload).value, Sort(decode(rs[i].payload).value))
    {
      SortSorts(decode(rs[i].payload).value);
    }
  }

  /** A list with two definitions of one name can be sorted to differ from any other answer. */
  lemma SortOtherwise<P, D>(rs: seq<Response<P>>, decode: P -> Option<seq<Definition<D>>>,
                            usual: seq<Response<Option<seq<Definition<D>>>>>, k: nat, l: nat)
    returns (sorted: seq<Response<Option<seq<Definition<D>>>>>)
    requires Sorts(rs, decode, usual) && k < |rs| && l < |rs| && k != l && AllAgree(usual, Itself())
    requires decode(rs[k].payload).Some? && !NamesDetermine(decode(rs[k].payload).value)
    ensures Sorts(rs, decode, sorted) && !AllAgree(sorted, Itself())
  {
    var given, ds := decode(rs[k].payload).value, usual[k].payload.value;
    if NamesDetermine(ds) {
      NamesDetermineOf(ds, given);
    }
    var other := OtherSort(ds);
    sorted := usual[k := Response(rs[k].status, Some(other))];
    assert Agree(usual, Itself(), k, l) && !Agree(sorted, Itself(), k, l);
  }

  /** Lists that agree once sorted hold the same definitions. */
  lemma SortedAgree<P, D>(rs: seq<Response<P>>, decode: P -> Option<seq<Definition<D>>>,
                          sorted: seq<Response<Option<seq<Definition<D>>>>>)
    requires Sorts(rs, decode, sorted) && AllAgree(sorted, Itself())
    ensures AllSame(rs, decode)
  {
    forall i, j | 0 <= i < |rs| && 0 <= j < |rs|
      ensures SameDefinitions(rs, decode, i, j)
    {
      assert Itself()(sorted[i].payload).Some? && Itself()(sorted[j].payload).Some?;
      assert Agree(sorted, Itself(), i, j);
    }
  }
}
