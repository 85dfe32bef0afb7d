/**
 Choosing the peers that a ledger query goes to: from explicit targets or from discovery, filtered,
 shuffled in place and cut to size.
 */
module LedgerTargets {
  import opened Collections

  datatype Peer = Peer(url: string, id: nat)

  /** A filter, as the set of peers that it accepts. */
  type TargetFilter = set<Peer>

  const DEFAULT_MIN_TARGETS := 1
  const DEFAULT_MAX_TARGETS := 1

  /** Request options; `targets` null means that none were given. */
  datatype Options = Options(targets: array?<Peer>, filter: Option<TargetFilter>, maxTargets: int, minTargets: int)

  /** The result; `OutOfRange` is the panic of a slice expression with a negative bound. */
  datatype Result = Targets(peers: seq<Peer>) | BothGiven | DiscoveryFailed | NoPeersFound | TooFewPeers | OutOfRange

  function PrepareRequestOpts(given: Options): Options {
    var max := if given.maxTargets == 0 then DEFAULT_MAX_TARGETS else given.maxTargets;
    var min := if given.minTargets == 0 then DEFAULT_MIN_TARGETS else given.minTargets;
    given.(minTargets := min, maxTargets := if min > max then min else max)
  }

  /** Prepared options ask for at least one target, and for no more than they allow, unless both
      numbers were given as negative.  A number that was not given is one, and a maximum yields to a
      greater minimum. */
  lemma PreparedBounds(given: Options)
    ensures var o := PrepareRequestOpts(given);
      && o.minTargets <= o.maxTargets && o.minTargets != 0
      && (o.maxTargets < 0 <==> given.maxTargets < 0 && given.minTargets < 0)
      && (given.minTargets > 0 ==> o.minTargets == given.minTargets)
      && (given.minTargets < 0 ==> o.minTargets == given.minTargets)
      && (given.minTargets == 0 ==> o.minTargets == 1)
      && (given.maxTargets >= o.minTargets && given.maxTargets != 0 ==> o.maxTargets == given.maxTargets)
      && (given.maxTargets == 0 && o.minTargets <= 1 ==> o.maxTargets == 1)
      && (given.maxTargets < o.minTargets && (given.maxTargets != 0 || o.minTargets > 1) ==> o.maxTargets == o.minTargets)
      && o.targets == given.targets && o.filter == given.filter
  {
  }

  // ----- shuffle -----

  /** `random[i]` is the random number drawn in round i, at most i. */
  ghost predicate Draws(random: seq<nat>, n: nat) {
    |random| >= n && forall i | 0 <= i < n :: random[i] <= i
  }

  function Swap<T>(s: seq<T>, i: nat, j: nat): seq<T>
    requires i < |s| && j < |s|
  {
    s[i := s[j]][j := s[i]]
  }

  /** The shuffle, round by round: round i brings in the i-th element, at a random place up to i, and
      moves the element of that place to place i. */
  ghost function Shuffled<T>(s: seq<T>, random: seq<nat>): (r: seq<T>)
    requires Draws(random, |s|)
    ensures |r| == |s|
  {
    if s == [] then []
    else
      var n := |s| - 1;
      Swap(Shuffled(s[..n], random) + [s[n]], n, random[n])
  }

  method Shuffle(a: array<Peer>, random: seq<nat>)
    requires Draws(random, a.Length)
    modifies a
    ensures a[..] == Shuffled(old(a[..]), random)
  {
    ghost var s := a[..];
    for i := 0 to a.Length
      invariant a[..] == Shuffled(s[..i], random) + s[i..]
    {
      Round(s, random, i);
      ghost var before := a[..];
      var j := random[i];
      a[i], a[j] := a[j], a[i];
      assert a[..] == Swap(before, i, j);
    }
    assert s[..a.Length] == s && s[a.Length..] == [];
  }

  /** A round of the loop is a round of the specification. */
  lemma Round<T>(s: seq<T>, random: seq<nat>, i: nat)
    requires i < |s| && Draws(random, |s|)
    ensures Swap(Shuffled(s[..i], random) + s[i..], i, random[i]) == Shuffled(s[..i + 1], random) + s[i + 1..]
  {
    assert s[..i + 1][..i] == s[..i];
    assert Shuffled(s[..i], random) + s[i..] == Shuffled(s[..i], random) + [s[i]] + s[i + 1..];
  }

  lemma SwapKeeps<T>(s: seq<T>, i: nat, j: nat)
    requires i < |s| && j < |s|
    ensures multiset(Swap(s, i, j)) == multiset(s)
  {
  }

  lemma SwapBack<T>(s: seq<T>, i: nat, j: nat)
    requires i < |s| && j < |s|
    ensures Swap(Swap(s, i, j), i, j) == s
  {
  }

  lemma LastOf<T>(s: seq<T>)
    requires s != []
    ensures multiset(s) == multiset(s[..|s| - 1]) + multiset{s[|s| - 1]}
  {
    assert s == s[..|s| - 1] + [s[|s| - 1]];
  }

  lemma InitsAgree<T>(s: seq<T>, t: seq<T>)
    requires s != [] && |s| == |t| && s[|s| - 1] == t[|t| - 1] && multiset(s) == multiset(t)
    ensures multiset(s[..|s| - 1]) == multiset(t[..|t| - 1])
  {
    var last := multiset{s[|s| - 1]};
    LastOf(s);
    LastOf(t);
    assert multiset(s[..|s| - 1]) == multiset(s) - last;
    assert multiset(t[..|t| - 1]) == multiset(t) - last;
  }

  /** A shuffle is a permutation. */
  lemma {:induction false} ShuffleKeeps<T>(s: seq<T>, random: seq<nat>)
    requires Draws(random, |s|)
    ensures multiset(Shuffled(s, random)) == multiset(s)
    decreases |s|
  {
    if s != [] {
      var n := |s| - 1;
      ShuffleKeeps(s[..n], random);
      SwapKeeps(Shuffled(s[..n], random) + [s[n]], n, random[n]);
      LastOf(s);
    }
  }

  lemma {:induction false} LaterDrawsIrrelevant<T>(s: seq<T>, random: seq<nat>, more: seq<nat>)
    requires Draws(random, |s|) && Draws(more, |s|) && forall i | 0 <= i < |s| :: random[i] == more[i]
    ensures Shuffled(s, random) == Shuffled(s, more)
    decreases |s|
  {
    if s != [] {
      LaterDrawsIrrelevant(s[..|s| - 1], random, more);
    }
  }

  /** Every permutation is the outcome of some draws, so no peer and no order is out of reach. */
  lemma {:induction false} ShuffleReachesAll<T>(s: seq<T>, t: seq<T>) returns (random: seq<nat>)
    requires multiset(s) == multiset(t)
    ensures Draws(random, |s|) && Shuffled(s, random) == t
    decreases |s|
  {
    assert |s| == |multiset(s)| == |multiset(t)| == |t|;
    if s == [] {
      return [];
    }
    var n := |s| - 1;
    var j := PlaceOf(t, s[n], multiset(s));
    var before := Swap(t, n, j);
    SwapKeeps(t, n, j);
    InitsAgree(s, before);
    var rest := ShuffleReachesAll(s[..n], before[..n]);
    random := LastRound(s, t, rest, j);
  }

  /** Draws that reach all but the last round of a permutation, and the place of the last element. */
  lemma LastRound<T>(s: seq<T>, t: seq<T>, rest: seq<nat>, j: nat) returns (random: seq<nat>)
    requires 0 < |s| == |t| && j < |t| && t[j] == s[|s| - 1]
    requires Draws(rest, |s| - 1) && Shuffled(s[..|s| - 1], rest) == Swap(t, |s| - 1, j)[..|s| - 1]
    ensures Draws(random, |s|) && Shuffled(s, random) == t
  {
    var n := |s| - 1;
    random := rest[..n] + [j];
    LaterDrawsIrrelevant(s[..n], rest, random);
    var before := Swap(t, n, j);
    assert before == before[..n] + [s[n]];
    SwapBack(t, n, j);
  }

  lemma PlaceOf<T>(t: seq<T>, x: T, m: multiset<T>) returns (j: nat)
    requires multiset(t) == m && x in m
    ensures j < |t| && t[j] == x
  {
    assert x in t;
    j :| 0 <= j < |t| && t[j] == x;
  }

  // ----- filter -----

  function Accepted(peers: seq<Peer>, filter: TargetFilter): seq<Peer> {
    if peers == [] then []
    else Accepted(peers[..|peers| - 1], filter) +
         if peers[|peers| - 1] in filter then [peers[|peers| - 1]] else []
  }

  method FilterTargets(peers: seq<Peer>, filter: TargetFilter) returns (r: seq<Peer>)
    ensures r == Accepted(peers, filter)
  {
    r := [];
    for i := 0 to |peers|
      invariant r == Accepted(peers[..i], filter)
    {
      assert peers[..i + 1][..i] == peers[..i];
      if peers[i] in filter {
        r := r + [peers[i]];
      }
    }
    assert peers[..|peers|] == peers;
  }

  /** The filter keeps exactly the accepted peers, with their multiplicity. */
  lemma {:induction false} AcceptedExactly(peers: seq<Peer>, filter: TargetFilter, p: Peer)
    ensures multiset(Accepted(peers, filter))[p] == if p in filter then multiset(peers)[p] else 0
    decreases |peers|
  {
    if peers != [] {
      var init := peers[..|peers| - 1];
      assert peers == init + [peers[|init|]];
      AcceptedExactly(init, filter, p);
    }
  }

  /** And in their order. */
  lemma {:induction false} AcceptedInOrder(peers: seq<Peer>, filter: TargetFilter)
    ensures Subsequence(Accepted(peers, filter), peers)
    decreases |peers|
  {
    if peers == [] {
      NothingIsSubsequence(peers);
    } else {
      var init, p := peers[..|peers| - 1], peers[|peers| - 1];
      assert peers == init + [p];
      AcceptedInOrder(init, filter);
      SubsequenceNext(Accepted(init, filter), init, p);
      assert p in filter || Accepted(peers, filter) == Accepted(init, filter);
    }
  }

  lemma AcceptedIff(peers: seq<Peer>, filter: TargetFilter, p: Peer)
    ensures p in Accepted(peers, filter) <==> p in peers && p in filter
  {
    AcceptedExactly(peers, filter, p);
    assert p in Accepted(peers, filter) <==> p in multiset(Accepted(peers, filter));
    assert p in peers <==> p in multiset(peers);
  }

  // ----- calculateTargets -----

  /** The filter in force: the request's, or the client's own when peers come from discovery. */
  function FilterInForce(opts: Options, own: Option<TargetFilter>): Option<TargetFilter> {
    if opts.targets != null || opts.filter.Some? then opts.filter else own
  }

  /** The peers there are to choose from. */
  ghost function Candidates(peers: seq<Peer>, filter: Option<TargetFilter>): seq<Peer> {
    if filter.None? then peers else Accepted(peers, filter.value)
  }

  function Least(a: int, b: int): int {
    if a < b then a else b
  }

  /** What is selected from the candidates: the head of their shuffle, between the minimum and the
      maximum in number; the exact cases in which nothing is. */
  ghost predicate Selects(r: Result, candidates: seq<Peer>, opts: Options, random: seq<nat>) {
    && (r.NoPeersFound? <==> candidates == [])
    && (r.TooFewPeers? <==> 0 < |candidates| < opts.minTargets)
    && (r.OutOfRange? <==> candidates != [] && opts.maxTargets < 0)
    && (r.Targets? <==> candidates != [] && opts.minTargets <= |candidates| && opts.maxTargets >= 0)
    && (r.Targets? ==>
          && |r.peers| == Least(opts.maxTargets, |candidates|)
          && opts.minTargets <= |r.peers| <= opts.maxTargets
          && Draws(random, |candidates|) && r.peers <= Shuffled(candidates, random)
          && multiset(r.peers) <= multiset(candidates))
  }

  /** The checks, the shuffle and the cut. */
  method Choose(targets: array<Peer>, opts: Options, random: seq<nat>) returns (r: Result)
    requires opts.minTargets <= opts.maxTargets && opts.minTargets != 0
    requires Draws(random, targets.Length)
    modifies targets
    ensures multiset(targets[..]) == old(multiset(targets[..]))
    ensures Selects(r, old(targets[..]), opts, random)
  {
    ghost var candidates := targets[..];
    if targets.Length == 0 {
      return NoPeersFound;
    }
    if targets.Length < opts.minTargets {
      return TooFewPeers;
    }
    var numOfTargets := opts.maxTargets;
    if targets.Length < opts.maxTargets {
      numOfTargets := targets.Length;
    }
    Shuffle(targets, random);
    ShuffleKeeps(candidates, random);
    if numOfTargets < 0 {
      return OutOfRange;
    }
    PrefixIncluded(targets[..], numOfTargets);
    return Targets(targets[..numOfTargets]);
  }

  /** Filtering makes a copy; without a filter in force the given array itself is shuffled. */
  method SelectTargets(source: array<Peer>, filter: Option<TargetFilter>, opts: Options, random: seq<nat>) returns (r: Result)
    requires opts.minTargets <= opts.maxTargets && opts.minTargets != 0
    requires Draws(random, source.Length)
    modifies source
    ensures multiset(source[..]) == old(multiset(source[..]))
    ensures filter.Some? ==> source[..] == old(source[..])
    ensures Selects(r, Candidates(old(source[..]), filter), opts, random)
  {
    if filter.None? {
      r := Choose(source, opts, random);
    } else {
      var accepted := FilterTargets(source[..], filter.value);
      AcceptedShorter(source[..], filter.value);
      var targets := new Peer[|accepted|](i requires 0 <= i < |accepted| => accepted[i]);
      assert targets[..] == accepted;
      r := Choose(targets, opts, random);
    }
  }

  /** What a selection means for the peers that there were before filtering. */
  lemma SelectedFrom(r: Result, peers: seq<Peer>, filter: Option<TargetFilter>, opts: Options, random: seq<nat>)
    requires Selects(r, Candidates(peers, filter), opts, random)
    ensures filter.None? ==> (r.NoPeersFound? <==> peers == [])
    ensures filter.Some? ==> (r.NoPeersFound? <==> forall p | p in peers :: p !in filter.value)
    ensures r.Targets? ==> forall p | p in r.peers :: p in peers && (filter.Some? ==> p in filter.value)
    ensures r.Targets? ==> |r.peers| == opts.maxTargets || multiset(r.peers) == multiset(Candidates(peers, filter))
  {
    var candidates := Candidates(peers, filter);
    forall p
      ensures p in candidates <==> p in peers && (filter.Some? ==> p in filter.value)
    {
      if filter.Some? {
        AcceptedIff(peers, filter.value, p);
      }
    }
    if r.Targets? {
      if |r.peers| == |candidates| {
        ShuffleKeeps(candidates, random);
        assert r.peers == Shuffled(candidates, random);
      }
      forall p | p in r.peers
        ensures p in candidates
      {
        assert p in multiset(r.peers) && p in multiset(candidates);
      }
    }
    if candidates != [] {
      assert candidates[0] in candidates;
    }
  }

  lemma PrefixIncluded<T>(s: seq<T>, n: nat)
    requires n <= |s|
    ensures multiset(s[..n]) <= multiset(s)
  {
    assert s == s[..n] + s[n..];
  }

  lemma {:induction false} AcceptedShorter(peers: seq<Peer>, filter: TargetFilter)
    ensures |Accepted(peers, filter)| <= |peers|
    decreases |peers|
  {
    if peers != [] {
      AcceptedShorter(peers[..|peers| - 1], filter);
    }
  }

  /** calculateTargets on prepared options.  `discovered` null is a failed discovery.  The filter of the
      request goes before the client's own, which is for discovered peers only. */
  method CalculateTargets(given: Options, discovered: array?<Peer>, own: Option<TargetFilter>, random: seq<nat>) returns (r: Result)
    requires given.targets != null ==> Draws(random, given.targets.Length)
    requires discovered != null ==> Draws(random, discovered.Length)
    modifies given.targets, discovered
    ensures r.BothGiven? <==> given.targets != null && given.filter.Some?
    ensures r.DiscoveryFailed? <==> given.targets == null && discovered == null
    ensures given.targets != null ==> multiset(given.targets[..]) == old(multiset(given.targets[..]))
    ensures discovered != null ==> multiset(discovered[..]) == old(multiset(discovered[..]))
    ensures !r.BothGiven? && !r.DiscoveryFailed? ==>
      && (given.targets != null || discovered != null)
      && var peers := if given.targets != null then old(given.targets[..]) else old(discovered[..]);
         Selects(r, Candidates(peers, FilterInForce(given, own)), PrepareRequestOpts(given), random)
    ensures r.Targets? && given.minTargets > 0 ==> |r.peers| >= given.minTargets
    ensures r.Targets? && given.maxTargets > 0 && given.maxTargets >= given.minTargets ==> |r.peers| <= given.maxTargets
    ensures r.Targets? && given.minTargets >= 0 && given.maxTargets >= 0 ==> |r.peers| > 0
    ensures r.TooFewPeers? ==> given.minTargets > 1
    ensures r.OutOfRange? ==> given.minTargets < 0 && given.maxTargets < 0
    ensures given.targets != null && given.filter.None? ==>
      && (r.NoPeersFound? <==> given.targets.Length == 0)
      && (r.Targets? ==> forall p | p in r.peers :: p in old(given.targets[..]))
    ensures given.targets == null && discovered != null && given.filter.Some? ==>
      && (r.NoPeersFound? <==> forall p | p in old(discovered[..]) :: p !in given.filter.value)
      && (r.Targets? ==> forall p | p in r.peers :: p in old(discovered[..]) && p in given.filter.value)
    ensures given.targets == null && discovered != null && given.filter.None? && own.Some? ==>
      && (r.NoPeersFound? <==> forall p | p in old(discovered[..]) :: p !in own.value)
      && (r.Targets? ==> forall p | p in r.peers :: p in old(discovered[..]) && p in own.value)
    ensures given.targets == null && discovered != null && given.filter.None? && own.None? ==>
      && (r.NoPeersFound? <==> discovered.Length == 0)
      && (r.Targets? ==> forall p | p in r.peers :: p in old(discovered[..]))
  {
    var opts := PrepareRequestOpts(given);
    PreparedBounds(given);
    if opts.targets != null && opts.filter.Some? {
      return BothGiven;
    }
    if opts.targets != null {
      r := SelectTargets(opts.targets, opts.filter, opts, random);
      SelectedFrom(r, old(given.targets[..]), opts.filter, opts, random);
    } else {
      if discovered == null {
        return DiscoveryFailed;
      }
      var filter := if opts.filter.None? then own else opts.filter;
      r := SelectTargets(discovered, filter, opts, random);
      SelectedFrom(r, old(discovered[..]), filter, opts, random);
    }
  }
}
