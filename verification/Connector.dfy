/**
 The caching connector as an object: two maps that share records by reference, gRPC connections
 with a state of their own, and the token channel.  Each method is one critical section and
 refines the function of the same purpose in ConnectionCache.
 */
module Connector {
  import opened Collections
  import opened ConnectionCache
  import Runs = ConnectorRuns

  /** A gRPC client connection; its only state that matters here is Shutdown, which is terminal. */
  class ClientConn {
    var shutdown: bool

    constructor ()
      ensures !shutdown
    {
      shutdown := false;
    }
  }

  class CachedConn {
    const target: string
    const conn: ClientConn
    var open: nat
    var lastClose: int

    constructor (target: string, conn: ClientConn)
      ensures this.target == target && this.conn == conn && open == 1 && lastClose == 0
    {
      this.target, this.conn := target, conn;
      open, lastClose := 1, 0;
    }

    function Value(): Record
      reads this
    {
      Record(target, open, lastClose)
    }

    /** setClosed: gives one use back. */
    method SetClosed(now: int)
      modifies this
      ensures Value() == Released(old(Value()), now)
      ensures open == if old(open) > 0 then old(open) - 1 else 0
      ensures lastClose == if old(open) > 0 then now else old(lastClose)
    {
      if open > 0 {
        lastClose := now;
        open := open - 1;
      }
    }
  }

  class CachingConnector {
    var conns: map<string, CachedConn>
    var index: map<ClientConn, CachedConn>
    const idleTime: int
    var closed: bool            // janitorDone == nil
    var tokens: nat             // values buffered in janitorClosed
    var channelClosed: bool     // janitorClosed has been closed
    var stopSent: bool          // a value is buffered in janitorDone
    var starting: nat           // janitors about to reach their select
    var running: nat            // janitors at their select
    var deaf: nat               // janitors at their select that found janitorDone nil
    var exiting: nat            // janitors about to send their exit token
    var panicked: bool
    ghost var created: set<CachedConn>

    ghost function Footprint(): set<object>
      reads this`created
    {
      created + (set c | c in created :: c.conn)
    }

    /** Each record owns its connection, and the index files every record under it. */
    ghost predicate Linked()
      reads this`conns, this`index, this`created, created
    {
      && conns.Values <= created
      && (forall k | k in index :: index[k] in created && index[k].conn == k)
      && (forall c, d | c in created && d in created :: c.conn == d.conn ==> c == d)
    }

    ghost predicate Valid()
      reads this`conns, this`index, this`closed, this`created, Footprint()
    {
      Linked() && Sound(Contents())
    }

    ghost function Contents(): Cache<CachedConn>
      reads this`conns, this`index, this`closed, this`created, Footprint()
    {
      Cache(conns,
            (set c | c in created && c.conn in index && index[c.conn] == c),
            (map c | c in created :: c.Value()),
            (set c | c in created && c.conn.shutdown),
            closed)
    }

    ghost function Channel(): Runs.Janitors
      reads this
    {
      Runs.Janitors(tokens, channelClosed, stopSent, starting, running, deaf, exiting, panicked)
    }

    constructor (idleTime: int)
      ensures Valid() && Contents() == Empty() && fresh(Footprint())
      ensures Channel() == Runs.Initial<CachedConn>().janitors
      ensures this.idleTime == idleTime
    {
      conns, index, closed := map[], map[], false;
      tokens, channelClosed, stopSent := 1, false, false;
      starting, running, deaf, exiting, panicked := 0, 0, 0, 0, false;
      created := {};
      this.idleTime := idleTime;
    }

    /** A receive that never blocks; a received value starts a janitor. */
    method EnsureJanitorStarted()
      modifies this`tokens, this`starting
      ensures Channel() == Runs.EnsureStarted(old(Channel()))
    {
      if tokens > 0 {
        tokens := tokens - 1;
        starting := starting + 1;
      } else if channelClosed {
        starting := starting + 1;
      }
    }

    /** A janitor evaluates its select; with a nil janitorDone it will hear nothing but ticks. */
    method EnterSelect()
      requires starting > 0
      modifies this`starting, this`running, this`deaf
      ensures Channel() == Runs.Selected(old(Channel()), closed)
    {
      starting := starting - 1;
      if closed {
        deaf := deaf + 1;
      } else {
        running := running + 1;
      }
    }

    method ShutdownConn(c: CachedConn)
      requires Linked() && c in created
      modifies this`conns, this`index, this`tokens, this`starting
      ensures Linked() && Contents() == if closed then old(Contents()) else Forget(old(Contents()), c)
      ensures Channel() == if closed then old(Channel()) else Runs.EnsureStarted(old(Channel()))
    {
      if closed {
        return;
      }
      conns := conns - {c.target};
      index := index - {c.conn};
      EnsureJanitorStarted();
    }

    method RemoveConn(c: CachedConn)
      requires Linked() && c in created
      modifies this`conns, this`index, c.conn
      ensures Linked() && Contents() == Remove(old(Contents()), c)
      ensures index == old(index) - {c.conn}
    {
      index := index - {c.conn};
      conns := conns - {c.target};
      c.conn.shutdown := true;
    }

    /** createConn, the locked part of a dial.  `dialed` is what the gRPC library answers if asked:
        a new connection, or null for an error. */
    method CreateConn(target: string, dialed: ClientConn?) returns (r: CachedConn?)
      requires Valid()
      requires dialed != null ==> !dialed.shutdown && dialed !in Footprint()
      modifies this`conns, this`index, this`tokens, this`starting, this`created, created
      ensures Valid()
      ensures r == null ==> closed || dialed == null
      ensures (Contents(), Maybe(r)) == Create(old(Contents()), target, if dialed == null then None else Maybe(r))
      ensures r != null && r !in old(created) ==> fresh(r) && r.conn == dialed
      ensures Channel() == if Purges(old(Contents()), target)
                           then Runs.EnsureStarted(old(Channel())) else old(Channel())
    {
      if closed {
        return null;
      }
      r := LoadOrStore(target, dialed);
    }

    method LoadOrStore(target: string, dialed: ClientConn?) returns (r: CachedConn?)
      requires Valid() && !closed
      requires dialed != null ==> !dialed.shutdown && dialed !in Footprint()
      modifies this`conns, this`index, this`tokens, this`starting, this`created, created
      ensures Valid()
      ensures r == null ==> dialed == null
      ensures (Contents(), Maybe(r)) == Create(old(Contents()), target, if dialed == null then None else Maybe(r))
      ensures r != null && r !in old(created) ==> fresh(r) && r.conn == dialed
      ensures Channel() == if Purges(old(Contents()), target)
                           then Runs.EnsureStarted(old(Channel())) else old(Channel())
    {
      r := LoadConn(target);
      LoadedOrPurged(old(Contents()), target, Maybe(r));
      if r == null && dialed != null {
        r := StoreConn(target, dialed, old(Contents()));
      }
    }

    /** The part of createConn that follows an unsuccessful look into the cache. */
    method StoreConn(target: string, dialed: ClientConn, ghost before: Cache<CachedConn>) returns (r: CachedConn)
      requires Linked() && !dialed.shutdown && dialed !in Footprint()
      requires Sound(before) && !before.closed && !Usable(before, target) && Contents() == Purged(before, target)
      modifies this`conns, this`index, this`created
      ensures Valid() && (Contents(), Some(r)) == Create(before, target, Some(r))
      ensures fresh(r) && r.conn == dialed
    {
      r := AddConn(target, dialed);
      assert r !in before.records;
      CreateSound(before, target, Some(r));
    }

    method AddConn(target: string, dialed: ClientConn) returns (r: CachedConn)
      requires Linked() && !dialed.shutdown && dialed !in Footprint()
      modifies this`conns, this`index, this`created
      ensures Linked() && Contents() == Added(old(Contents()), target, r)
      ensures fresh(r) && r.conn == dialed
    {
      r := new CachedConn(target, dialed);
      created := created + {r};
      conns := conns[target := r];
      index := index[dialed := r];
      assert Contents().index == old(Contents()).index + {r};
      assert Contents().shut == old(Contents()).shut;
    }

    /** loadConn: a usable cached connection counts one more user at once, so that the janitor does
        not sweep it; one in shutdown state is dropped. */
    method LoadConn(target: string) returns (r: CachedConn?)
      requires Valid() && !closed
      modifies this`conns, this`index, this`tokens, this`starting, created
      ensures Valid()
      ensures (Contents(), Maybe(r)) == Create(old(Contents()), target, None)
      ensures r != null ==> r in created
      ensures Channel() == if Purges(old(Contents()), target)
                           then Runs.EnsureStarted(old(Channel())) else old(Channel())
    {
      CreateSound(Contents(), target, None);
      if target in conns {
        var c := conns[target];
        if !c.conn.shutdown {
          c.open := c.open + 1;
          assert Contents() == WithRecord(old(Contents()), c, c.Value());
          return c;
        }
        ShutdownConn(c);
      }
      return null;
    }

    /** The locked part of a dial that did not become ready. */
    method FailDial(c: CachedConn, now: int)
      requires Valid() && c in created
      modifies this`conns, this`index, c, c.conn
      ensures Valid() && Contents() == Abandon(old(Contents()), c, now)
    {
      AbandonSound(Contents(), c, now);
      GiveBack(c, now);
      RemoveConn(c);
    }

    method GiveBack(c: CachedConn, now: int)
      requires Linked() && c in created
      modifies c
      ensures Linked() && Contents() == WithRecord(old(Contents()), c, Released(old(Contents()).records[c], now))
    {
      c.SetClosed(now);
    }

    /** ReleaseConn, for a connection of this connector or of any other origin. */
    method ReleaseConn(conn: ClientConn, now: int)
      requires Valid()
      modifies this`tokens, this`starting, conn, created
      ensures Valid()
      ensures forall c | c in created && c.conn == conn :: Contents() == Release(old(Contents()), c, now)
      ensures (forall c | c in created :: c.conn != conn) ==> Contents() == old(Contents())
      ensures conn.shutdown == (old(conn.shutdown) || closed)
      ensures Channel() == if !closed && conn in index then Runs.EnsureStarted(old(Channel())) else old(Channel())
    {
      if closed {
        ForceClose(conn);
        return;
      }
      if conn !in index {
        return;
      }
      ReleaseIndexed(index[conn], now);
    }

    method ReleaseIndexed(c: CachedConn, now: int)
      requires Valid() && !closed && c in created && c in Contents().index
      modifies this`tokens, this`starting, c
      ensures Valid() && Contents() == Release(old(Contents()), c, now)
      ensures Channel() == Runs.EnsureStarted(old(Channel()))
    {
      GiveBack(c, now);
      EnsureJanitorStarted();
    }

    method ForceClose(conn: ClientConn)
      requires Linked()
      modifies conn
      ensures conn.shutdown && Linked()
      ensures Contents() == old(Contents()).(shut := old(Contents()).shut + set c | c in created && c.conn == conn)
    {
      if !conn.shutdown {
        conn.shutdown := true;
      }
    }

    /** sweepAndRemove: visits the index in any order and deletes entries while doing so. */
    method SweepAndRemove(now: int)
      requires Valid()
      modifies this`conns, this`index, set c | c in created :: c.conn
      ensures Valid() && Contents() == Sweep(old(Contents()), now, idleTime)
    {
      ghost var before := Contents();
      var todo := index.Keys;
      assert Contents() == RemoveAll(before, Visited(before, todo, now));
      while todo != {}
        invariant Linked() && todo <= index.Keys
        invariant Contents() == RemoveAll(before, Visited(before, todo, now))
        decreases todo
      {
        var k :| k in todo;
        Visit(k, now, before, todo);
        todo := todo - {k};
      }
      assert Visited(before, {}, now) == set c | c in before.index && Expired(before, c, now, idleTime);
      RemoveAllSound(before, Visited(before, {}, now));
    }

    /** A janitor's tick: it exits when its sweep leaves nothing to watch. */
    method JanitorTick(now: int, hears: bool)
      requires Valid() && if hears then running > 0 else deaf > 0
      modifies this`conns, this`index, this`starting, this`running, this`deaf, this`exiting, set c | c in created :: c.conn
      ensures Valid() && Contents() == Sweep(old(Contents()), now, idleTime)
      ensures Channel() == Runs.Ticked(old(Channel()), hears, Contents().index == {})
    {
      SweepAndRemove(now);
      ExitIfEmpty(hears);
    }

    method ExitIfEmpty(hears: bool)
      requires Valid() && if hears then running > 0 else deaf > 0
      modifies this`starting, this`running, this`deaf, this`exiting
      ensures Valid() && Contents() == old(Contents())
      ensures Channel() == Runs.Ticked(old(Channel()), hears, Contents().index == {})
    {
      EmptyIndex();
      LeaveSelect(hears, |index| == 0);
    }

    method LeaveSelect(hears: bool, exits: bool)
      requires if hears then running > 0 else deaf > 0
      modifies this`starting, this`running, this`deaf, this`exiting
      ensures Channel() == Runs.Ticked(old(Channel()), hears, exits)
    {
      if hears {
        running := running - 1;
      } else {
        deaf := deaf - 1;
      }
      if exits {
        exiting := exiting + 1;
      } else {
        starting := starting + 1;
      }
    }

    lemma EmptyIndex()
      requires Linked()
      ensures |index| == 0 <==> Contents().index == {}
    {
      if |index| != 0 {
        var k :| k in index;
        assert index[k] in Contents().index;
      }
    }

    /** The exit send of a janitor; it is reached when the slot is free or the channel closed. */
    method SendToken()
      requires exiting > 0 && (channelClosed || tokens == 0)
      modifies this`tokens, this`exiting, this`panicked
      ensures Channel() == Runs.TokenSent(old(Channel()))
    {
      if channelClosed {
        panicked := true;
      } else {
        tokens, exiting := tokens + 1, exiting - 1;
      }
    }

    /** The select at the start of Close; the result says whether a janitor must be awaited. */
    method SelectClose() returns (await: bool)
      modifies this`tokens, this`stopSent
      ensures Channel() == Runs.CloseSelected(old(Channel()))
      ensures await <==> old(tokens) == 0
    {
      if tokens > 0 {
        tokens := tokens - 1;
        return false;
      }
      stopSent := true;
      return true;
    }

    /** The expired connections among those a sweep has visited. */
    ghost function Visited(s: Cache<CachedConn>, todo: set<ClientConn>, now: int): set<CachedConn>
      requires s.index <= s.records.Keys
    {
      set c | c in s.index && c.conn !in todo && Expired(s, c, now, idleTime)
    }

    lemma VisitedStep(s: Cache<CachedConn>, todo: set<ClientConn>, now: int, c: CachedConn)
      requires s.index <= s.records.Keys && c in s.index && c.conn in todo
      requires forall d | d in s.index :: d.conn == c.conn ==> d == c
      ensures Visited(s, todo - {c.conn}, now) ==
              Visited(s, todo, now) + if Expired(s, c, now, idleTime) then {c} else {}
    {
    }

    method Visit(k: ClientConn, now: int, ghost before: Cache<CachedConn>, ghost todo: set<ClientConn>)
      requires Linked() && k in todo && todo <= index.Keys
      requires before.records.Keys == created && before.index <= created
      requires Contents() == RemoveAll(before, Visited(before, todo, now))
      modifies this`conns, this`index, k
      ensures Linked() && todo - {k} <= index.Keys
      ensures Contents() == RemoveAll(before, Visited(before, todo - {k}, now))
    {
      var c := index[k];
      assert c in Contents().index;
      RemoveAllStep(before, Visited(before, todo, now), c);
      VisitedStep(before, todo, now, c);
      SweepOne(c, now);
    }

    /** The body of the sweep's loop. */
    method SweepOne(c: CachedConn, now: int)
      requires Linked() && c in created && c.conn in index
      modifies this`conns, this`index, c.conn
      ensures Linked() && index == if Expired(old(Contents()), c, now, idleTime) then old(index) - {c.conn} else old(index)
      ensures Contents() == if Expired(old(Contents()), c, now, idleTime) then Remove(old(Contents()), c) else old(Contents())
    {
      if c.open == 0 && now > c.lastClose + idleTime {
        RemoveConn(c);
      } else if c.conn.shutdown {
        RemoveConn(c);
      }
    }

    /** The locked end of Close: every indexed connection is closed, then the channels. */
    method FinishClose()
      requires Valid()
      modifies this`closed, this`channelClosed, set c | c in created :: c.conn
      ensures Valid() && Contents() == Flush(old(Contents())).(closed := true)
      ensures Channel() == old(Channel()).(channelClosed := true)
      ensures forall c | c in created :: c.conn.shutdown
    {
      FlushShutsEverything(Contents());
      FlushIndex();
      channelClosed := true;
      closed := true;
      assert Contents() == Flush(old(Contents())).(closed := true);
      assert forall c | c in created :: c in Contents().shut;
    }

    /** flush: closes every connection of the index, in any order. */
    method FlushIndex()
      requires Linked()
      modifies set c | c in created :: c.conn
      ensures Linked() && Contents() == old(Contents()).(shut := old(Contents()).shut + old(Contents()).index)
    {
      ghost var before := Contents();
      var todo := index.Keys;
      while todo != {}
        invariant Linked() && todo <= index.Keys
        invariant Contents() == before.(shut := before.shut + Closed(before, todo))
        decreases todo
      {
        var k :| k in todo;
        ghost var c := index[k];
        assert c in Contents().index;
        CloseConn(k);
        assert Closed(before, todo - {k}) == Closed(before, todo) + {c};
        todo := todo - {k};
      }
      assert Closed(before, {}) == before.index;
    }

    ghost function Closed(s: Cache<CachedConn>, todo: set<ClientConn>): set<CachedConn> {
      set c | c in s.index && c.conn !in todo
    }

    method CloseConn(k: ClientConn)
      requires Linked() && k in index
      modifies k
      ensures Linked() && Contents() == old(Contents()).(shut := old(Contents()).shut + {index[k]})
    {
      k.shutdown := true;
    }
  }

  function Maybe(r: CachedConn?): Option<CachedConn> {
    if r == null then None else Some(r)
  }

  /** GRPCConnection: a caller's handle, whose flag lets only the first Close reach the connector. */
  class GRPCConnection {
    const conn: ClientConn
    const connector: CachingConnector
    var done: bool

    constructor (conn: ClientConn, connector: CachingConnector)
      ensures this.conn == conn && this.connector == connector && !done
    {
      this.conn, this.connector, done := conn, connector, false;
    }

    /** Of any number of calls exactly the first gives the connection back. */
    method Close(now: int)
      requires connector.Valid() && this !in connector.Footprint() && (this as object) != connector
      modifies this`done, connector`tokens, connector`starting, conn, connector.created
      ensures connector.Valid() && done
      ensures old(done) ==> connector.Contents() == old(connector.Contents()) && connector.Channel() == old(connector.Channel())
      ensures !old(done) ==> forall c | c in connector.created && c.conn == conn ::
                connector.Contents() == Release(old(connector.Contents()), c, now)
    {
      if done {
        return;
      }
      done := true;
      connector.ReleaseConn(conn, now);
    }
  }
}
