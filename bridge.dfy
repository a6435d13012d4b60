/**
  The bridge object: the lock map it updates in place, and the three
  operations that change it. logind, the random cookie, the bus-name
  listing and the outcome of closing an fd come in as parameters; the
  mutex is taken to make each method atomic. The ghost fields `issued`
  and `closed` record which inhibitor fds logind handed out and how often
  each was closed, so that the methods can promise what happens to them.
*/
module Bridge {
  import opened Locks

  /**
    The membership set built from the listed bus names before the sweep
    takes the mutex (the source's `nameMap`).
  */
  method CollectNames(active: seq<Peer>) returns (names: set<Peer>)
    ensures forall p :: p in names <==> p in active
  {
    names := {};
    for i := 0 to |active|
      invariant forall p :: p in names <==> p in active[..i]
    {
      assert active[..i + 1] == active[..i] + [active[i]];
      names := names + {active[i]};
    }
    assert active[..|active|] == active;
  }

  class InhibitBridge {
    var locks: map<nat, Lock>
    ghost var issued: set<Fd>
    ghost var closed: multiset<Fd>

    ghost function Snapshot(): (r: Registry)
      reads this
    {
      Registry(locks, issued, closed)
    }

    ghost predicate Valid()
      reads this
    {
      Locks.Valid(Snapshot())
    }

    /** A bridge starts with an empty lock table. */
    constructor ()
      ensures Valid() && Snapshot() == Empty()
    {
      locks := map[];
      issued := {};
      closed := multiset{};
    }

    /**
      Inhibit as the bus sees it: `logind` is what logind's Inhibit call
      returned (a new fd, or an error) and `draw` the 32-bit random cookie.
    */
    method Inhibit(from: Peer, who: string, why: string, logind: Outcome<Fd>, draw: Cookie32)
      returns (cookie: nat, err: Option<BusError>)
      requires Valid()
      requires logind.Ok? ==> logind.value !in issued
      modifies this
      ensures Valid()
      ensures cookie < CookieLimit
      ensures InhibitReply(Snapshot(), cookie, err) == AfterInhibit(old(Snapshot()), from, who, why, logind, draw)
    {
      if logind.Failed? {
        return 0, Some(InhibitRefused(logind.reason));
      }
      var fd := logind.value;
      issued := issued + {fd};
      var ld := Lock(draw, from, who, why, fd);
      locks := locks[ld.cookie := ld];
      InhibitPreservesValid(old(Snapshot()), from, who, why, logind, draw);
      return ld.cookie, None;
    }

    /**
      UnInhibit as the bus sees it: `closeOk` is whether closing the lock's
      fd reported success. `from` is not consulted.
    */
    method UnInhibit(from: Peer, cookie: Cookie32, closeOk: bool) returns (err: Option<BusError>)
      requires Valid()
      modifies this
      ensures Valid()
      ensures UnInhibitReply(Snapshot(), err) == AfterUnInhibit(old(Snapshot()), from, cookie, closeOk)
    {
      if cookie !in locks {
        return Some(InvalidCookie(cookie));
      }
      var ld := locks[cookie];
      locks := locks - {ld.cookie};
      closed := closed + multiset{ld.fd};
      UnInhibitPreservesValid(old(Snapshot()), from, cookie, closeOk);
      if !closeOk {
        return Some(CloseFailed(cookie));
      }
      return None;
    }

    /**
      The part of a heartbeat tick that runs under the mutex: walk the
      table, and close and delete every lock whose peer is not in `names`.
      Entries are visited in no particular order; each is visited once.
    */
    method Reclaim(names: set<Peer>)
      requires Valid()
      modifies this
      ensures Valid()
      ensures Snapshot() == AfterSweep(old(Snapshot()), names)
    {
      ghost var start := locks;
      var todo := locks.Keys;
      while todo != {}
        invariant todo <= start.Keys
        invariant locks == Pending(start, names, todo)
        invariant closed == old(closed) + multiset(Swept(start, names, todo))
        invariant issued == old(issued)
        decreases todo
      {
        var k :| k in todo;
        var ld := locks[k];
        if ld.peer !in names {
          VisitDropped(start, names, todo, k);
          closed := closed + multiset{ld.fd};
          locks := locks - {ld.cookie};
        } else {
          VisitKept(start, names, todo, k);
        }
        todo := todo - {k};
      }
      SweepDone(start, names);
      SweepReclaimsExactlyDead(old(Snapshot()), names);
    }

    /**
      One heartbeat tick: `listed` is what the bus's ListNames call
      returned, or None when the call failed and the tick is skipped.
    */
    method HeartbeatTick(listed: Option<seq<Peer>>)
      requires Valid()
      modifies this
      ensures Valid()
      ensures Snapshot() == AfterTick(old(Snapshot()), listed)
    {
      if listed.None? {
        return;
      }
      var names := CollectNames(listed.value);
      assert names == set p | p in listed.value;
      Reclaim(names);
    }
  }

  // The state of the table part-way through a sweep that started from
  // `start` and has still to visit the keys in `todo`.

  /** The entries still in the table: the ones not yet visited and the ones kept. */
  ghost function Pending(start: map<nat, Lock>, names: set<Peer>, todo: set<nat>): (pending: map<nat, Lock>)
  {
    map k | k in start && (k in todo || start[k].peer in names) :: start[k]
  }

  /** The fds closed so far: those of the visited entries whose peer is gone. */
  ghost function Swept(start: map<nat, Lock>, names: set<Peer>, todo: set<nat>): (fds: set<Fd>)
  {
    set k | k in start && k !in todo && start[k].peer !in names :: start[k].fd
  }

  lemma VisitDropped(start: map<nat, Lock>, names: set<Peer>, todo: set<nat>, k: nat)
    requires KeyedByCookie(start) && DistinctFds(start)
    requires k in todo && todo <= start.Keys && start[k].peer !in names
    ensures Pending(start, names, todo)[k] == start[k]
    ensures Pending(start, names, todo - {k}) == Pending(start, names, todo) - {start[k].cookie}
    ensures multiset(Swept(start, names, todo - {k})) == multiset(Swept(start, names, todo)) + multiset{start[k].fd}
  {
    var before := Swept(start, names, todo);
    forall j | j in start && j !in todo && start[j].peer !in names
      ensures start[j].fd != start[k].fd
    {
      assert j != k;
    }
    assert start[k].fd !in before;
    assert Swept(start, names, todo - {k}) == before + {start[k].fd};
  }

  lemma VisitKept(start: map<nat, Lock>, names: set<Peer>, todo: set<nat>, k: nat)
    requires k in todo && todo <= start.Keys && start[k].peer in names
    ensures Pending(start, names, todo)[k] == start[k]
    ensures Pending(start, names, todo - {k}) == Pending(start, names, todo)
    ensures Swept(start, names, todo - {k}) == Swept(start, names, todo)
  {
  }

  lemma SweepDone(start: map<nat, Lock>, names: set<Peer>)
    ensures Pending(start, names, {}) == Survivors(start, names)
    ensures Swept(start, names, {}) == Reclaimed(start, names)
  {
  }
}
