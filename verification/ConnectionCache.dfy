/**
 The abstract value of the caching connector: what its two maps, the cached records and the
 gRPC connections hold, and what each critical section does to that value.  The class in
 Connector.dfy refines these functions; ConnectorRuns.dfy proves safety over whole runs of them.
 */
module ConnectionCache {
  import opened Collections

  /** A cached record: its target, the number of current users, and when it was last released. */
  datatype Record = Record(target: string, open: nat, lastClose: int)

  /** `records` keeps every record ever created, since a dialer may still hold a removed one. */
  datatype Cache<!C(==)> = Cache(
    conns: map<string, C>,
    index: set<C>,
    records: map<C, Record>,
    shut: set<C>,
    closed: bool)

  function Empty<C(==)>(): Cache<C> {
    Cache(map[], {}, map[], {}, false)
  }

  /** What holds of the cache in every reachable state.  `conns` is contained in `index`, and not
      the other way round: removal works by target and may drop a newer entry from `conns`. */
  ghost predicate Sound<C>(s: Cache<C>) {
    && s.index <= s.records.Keys
    && s.shut <= s.records.Keys
    && (forall t | t in s.conns :: s.conns[t] in s.index && s.records[s.conns[t]].target == t)
    && (forall c | c in s.records :: c in s.index || c in s.shut)
    && (s.closed ==> s.records.Keys <= s.shut)
  }

  // ----- the critical sections -----

  function Released(r: Record, now: int): Record {
    if r.open > 0 then Record(r.target, r.open - 1, now) else r
  }

  function WithRecord<C>(s: Cache<C>, c: C, r: Record): Cache<C> {
    s.(records := s.records[c := r])
  }

  /** Drops a connection from both maps, by connection and by target. */
  function Forget<C>(s: Cache<C>, c: C): Cache<C>
    requires c in s.records
  {
    s.(index := s.index - {c}, conns := s.conns - {s.records[c].target})
  }

  function Remove<C>(s: Cache<C>, c: C): Cache<C>
    requires c in s.records
  {
    Forget(s, c).(shut := s.shut + {c})
  }

  predicate Usable<C>(s: Cache<C>, target: string) {
    target in s.conns && s.conns[target] !in s.shut
  }

  /** A cached connection found in shutdown state is forgotten before a new one is dialled. */
  function Purged<C>(s: Cache<C>, target: string): Cache<C>
    requires Sound(s)
  {
    if target in s.conns && s.conns[target] in s.shut then Forget(s, s.conns[target]) else s
  }

  /** Does looking up `target` forget a dead connection, and so wake the janitor? */
  predicate Purges<C>(s: Cache<C>, target: string) {
    !s.closed && target in s.conns && s.conns[target] in s.shut
  }

  /** The locked part of a dial.  `dialed` is what the gRPC library returns if it is asked:
      a connection never seen before, or nothing when it fails. */
  function Create<C>(s: Cache<C>, target: string, dialed: Option<C>): (Cache<C>, Option<C>)
    requires Sound(s)
  {
    if s.closed then
      (s, None)
    else if Usable(s, target) then
      var c := s.conns[target];
      var r := s.records[c];
      (WithRecord(s, c, r.(open := r.open + 1)), Some(c))
    else
      var p := Purged(s, target);
      match dialed
      case None => (p, None)
      case Some(c) => (Added(p, target, c), Some(c))
  }

  /** A cached connection makes the library's answer irrelevant; without one the dead entry is gone. */
  lemma LoadedOrPurged<C>(s: Cache<C>, target: string, dialed: Option<C>)
    requires Sound(s) && !s.closed
    ensures var (cache, got) := Create(s, target, None);
      if got.Some? then Create(s, target, dialed) == (cache, got)
      else !Usable(s, target) && cache == Purged(s, target)
  {
  }

  function Added<C>(s: Cache<C>, target: string, c: C): Cache<C> {
    s.(conns := s.conns[target := c],
       index := s.index + {c},
       records := s.records[c := Record(target, 1, 0)])
  }

  /** The locked part of a dial whose connection did not become ready. */
  function Abandon<C>(s: Cache<C>, c: C, now: int): Cache<C>
    requires c in s.records
  {
    Remove(WithRecord(s, c, Released(s.records[c], now)), c)
  }

  function Release<C>(s: Cache<C>, c: C, now: int): Cache<C>
    requires c in s.records
  {
    if s.closed then s.(shut := s.shut + {c})
    else if c !in s.index then s
    else WithRecord(s, c, Released(s.records[c], now))
  }

  predicate Expired<C>(s: Cache<C>, c: C, now: int, idle: int)
    requires c in s.records
  {
    || (s.records[c].open == 0 && now > s.records[c].lastClose + idle)
    || c in s.shut
  }

  /** The result of a sweep, in closed form: independent of the order in which it visits `index`. */
  ghost function Sweep<C>(s: Cache<C>, now: int, idle: int): Cache<C>
    requires s.index <= s.records.Keys
  {
    RemoveAll(s, set c | c in s.index && Expired(s, c, now, idle))
  }

  ghost function RemoveAll<C>(s: Cache<C>, victims: set<C>): Cache<C>
    requires victims <= s.records.Keys
  {
    s.(index := s.index - victims,
       conns := s.conns - (set c | c in victims :: s.records[c].target),
       shut := s.shut + victims)
  }

  function Flush<C>(s: Cache<C>): Cache<C> {
    s.(shut := s.shut + s.index)
  }

  // ----- every critical section keeps the cache sound -----

  lemma RemoveAllSound<C>(s: Cache<C>, victims: set<C>)
    requires Sound(s) && victims <= s.records.Keys
    ensures Sound(RemoveAll(s, victims))
  {
    var s' := RemoveAll(s, victims);
    forall t | t in s'.conns
      ensures s'.conns[t] in s'.index
    {
      assert s.records[s.conns[t]].target == t;
    }
  }

  lemma CreateSound<C>(s: Cache<C>, target: string, dialed: Option<C>)
    requires Sound(s)
    requires dialed.Some? ==> dialed.value !in s.records
    ensures Sound(Create(s, target, dialed).0)
  {
    var p := Purged(s, target);
    assert Sound(p) by {
      if p != s {
        forall t | t in p.conns ensures p.conns[t] in p.index {
          assert s.records[s.conns[t]].target == t;
        }
      }
    }
  }

  lemma AbandonSound<C>(s: Cache<C>, c: C, now: int)
    requires Sound(s) && c in s.records
    ensures Sound(Abandon(s, c, now))
  {
    var w := WithRecord(s, c, Released(s.records[c], now));
    assert Sound(w);
    RemoveAllSound(w, {c});
    assert Abandon(s, c, now) == RemoveAll(w, {c}) by {
      assert (set d | d in {c} :: w.records[d].target) == {w.records[c].target};
    }
  }

  lemma FlushShutsEverything<C>(s: Cache<C>)
    requires Sound(s)
    ensures Sound(Flush(s)) && Sound(Flush(s).(closed := true)) && Flush(s).shut == s.records.Keys
  {
  }

  /** Removing one after another, in any order, is removing all at once. */
  lemma RemoveAllStep<C>(s: Cache<C>, victims: set<C>, c: C)
    requires victims <= s.records.Keys && c in s.records
    ensures Remove(RemoveAll(s, victims), c) == RemoveAll(s, victims + {c})
  {
    assert (set d | d in victims + {c} :: s.records[d].target) ==
           (set d | d in victims :: s.records[d].target) + {s.records[c].target};
  }
}
