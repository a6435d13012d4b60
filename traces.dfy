/**
  Whole histories of the bridge: any interleaving of Inhibit, UnInhibit
  and heartbeat ticks, each applied atomically. The theorems here are the
  lifetime guarantees of the lock table: the invariant always holds, no
  fd is ever closed twice, the bridge never closes the fd of a lock lost
  to a cookie collision, and an explicit release racing with a heartbeat
  closes the lock's fd exactly once.
*/
module Traces {
  import opened Locks

  /** One atomic operation, with the outcomes of the external calls it makes. */
  datatype Call =
    | InhibitCall(from: Peer, who: string, why: string, logind: Outcome<Fd>, draw: Cookie32)
    | UnInhibitCall(from: Peer, cookie: Cookie32, closeOk: bool)
    | Tick(listed: Option<seq<Peer>>)

  function Step(r: Registry, c: Call): (next: Registry) {
    match c
    case InhibitCall(from, who, why, logind, draw) => AfterInhibit(r, from, who, why, logind, draw).next
    case UnInhibitCall(from, cookie, closeOk) => AfterUnInhibit(r, from, cookie, closeOk).next
    case Tick(listed) => AfterTick(r, listed)
  }

  function Run(r: Registry, calls: seq<Call>): (end: Registry)
    decreases |calls|
  {
    if calls == [] then r else Run(Step(r, calls[0]), calls[1..])
  }

  /** logind keeps its side of the bargain: every fd it hands out is a new one. */
  predicate FreshFd(r: Registry, c: Call) {
    c.InhibitCall? && c.logind.Ok? ==> c.logind.value !in r.issued
  }

  /** A history in which logind only ever hands out new fds. */
  predicate Admissible(r: Registry, calls: seq<Call>)
    decreases |calls|
  {
    calls == [] || (FreshFd(r, calls[0]) && Admissible(Step(r, calls[0]), calls[1..]))
  }

  lemma StepPreservesValid(r: Registry, c: Call)
    requires Valid(r) && FreshFd(r, c)
    ensures Valid(Step(r, c))
  {
    match c
    case InhibitCall(from, who, why, logind, draw) =>
      InhibitPreservesValid(r, from, who, why, logind, draw);
    case UnInhibitCall(from, cookie, closeOk) =>
      UnInhibitPreservesValid(r, from, cookie, closeOk);
    case Tick(listed) =>
      if listed.Some? {
        SweepReclaimsExactlyDead(r, set p | p in listed.value);
      }
  }

  lemma {:induction false} RunPreservesValid(r: Registry, calls: seq<Call>)
    requires Valid(r) && Admissible(r, calls)
    ensures Valid(Run(r, calls))
    decreases |calls|
  {
    if calls != [] {
      StepPreservesValid(r, calls[0]);
      RunPreservesValid(Step(r, calls[0]), calls[1..]);
    }
  }

  /**
    From the empty table, whatever happens: no fd is closed twice, every
    fd in the table is open, every entry sits under its own 32-bit cookie.
  */
  lemma AtMostOnceRelease(calls: seq<Call>)
    requires Admissible(Empty(), calls)
    ensures var r := Run(Empty(), calls);
            && (forall fd :: r.closed[fd] <= 1)
            && (forall k :: k in r.locks ==> r.locks[k].cookie == k && k < CookieLimit)
            && (forall k :: k in r.locks ==> r.locks[k].fd !in r.closed)
  {
    RunPreservesValid(Empty(), calls);
  }

  /** No operation of the bridge closes an issued fd that no entry references any more. */
  lemma StepKeepsOrphan(r: Registry, c: Call, fd: Fd)
    requires Valid(r) && FreshFd(r, c)
    requires fd in r.issued && fd !in r.closed && !Referenced(r.locks, fd)
    ensures var next := Step(r, c);
            fd in next.issued && fd !in next.closed && !Referenced(next.locks, fd)
  {
    var next := Step(r, c);
    match c
    case InhibitCall(from, who, why, logind, draw) =>
      forall k | k in next.locks
        ensures next.locks[k].fd != fd
      {
        if k != draw {
          assert r.locks[k].fd != fd;
        }
      }
    case UnInhibitCall(from, cookie, closeOk) =>
      if cookie in r.locks {
        assert r.locks[cookie].fd != fd;
        forall k | k in next.locks
          ensures next.locks[k].fd != fd
        {
          assert r.locks[k].fd != fd;
        }
      }
    case Tick(listed) =>
      forall k | k in next.locks
        ensures next.locks[k].fd != fd
      {
        assert r.locks[k].fd != fd;
      }
  }

  /** ... and so it stays unclosed for the rest of any history. */
  lemma {:induction false} OrphanStaysOpen(r: Registry, calls: seq<Call>, fd: Fd)
    requires Valid(r) && Admissible(r, calls)
    requires fd in r.issued && fd !in r.closed && !Referenced(r.locks, fd)
    ensures var end := Run(r, calls);
            fd in end.issued && fd !in end.closed && !Referenced(end.locks, fd)
    decreases |calls|
  {
    if calls != [] {
      StepKeepsOrphan(r, calls[0], fd);
      StepPreservesValid(r, calls[0]);
      OrphanStaysOpen(Step(r, calls[0]), calls[1..], fd);
    }
  }

  /**
    A cookie collision leaks: when Inhibit draws a cookie that is already
    in the table, the bridge never closes the fd of the lock it
    overwrites: no later UnInhibit or heartbeat closes it.
  */
  lemma CollisionFdNeverClosed(r: Registry, from: Peer, who: string, why: string,
                                fd: Fd, draw: Cookie32, later: seq<Call>)
    requires Valid(r)
    requires fd !in r.issued && draw in r.locks
    requires Admissible(AfterInhibit(r, from, who, why, Ok(fd), draw).next, later)
    ensures r.locks[draw].fd !in Run(AfterInhibit(r, from, who, why, Ok(fd), draw).next, later).closed
  {
    var next := AfterInhibit(r, from, who, why, Ok(fd), draw).next;
    CollisionLeaksFd(r, from, who, why, fd, draw);
    InhibitPreservesValid(r, from, who, why, Ok(fd), draw);
    OrphanStaysOpen(next, later, r.locks[draw].fd);
  }

  /**
    An explicit UnInhibit and a heartbeat that finds the lock's peer gone
    may run in either order; either way the fd is closed exactly once and
    the cookie is gone from the table. When the heartbeat goes first, UnInhibit
    is told the cookie is invalid.
  */
  lemma ReleaseAndReclaimRace(r: Registry, from: Peer, cookie: Cookie32, closeOk: bool, active: seq<Peer>)
    requires Valid(r)
    requires cookie in r.locks && r.locks[cookie].peer !in active
    ensures var fd := r.locks[cookie].fd;
            var released := AfterUnInhibit(r, from, cookie, closeOk);
            var thenSwept := AfterTick(released.next, Some(active));
            var swept := AfterTick(r, Some(active));
            var thenReleased := AfterUnInhibit(swept, from, cookie, closeOk);
            && r.closed[fd] == 0
            && cookie !in thenSwept.locks && thenSwept.closed[fd] == 1
            && cookie !in thenReleased.next.locks && thenReleased.next.closed[fd] == 1
            && thenReleased.err == Some(InvalidCookie(cookie))
  {
    var fd := r.locks[cookie].fd;
    var names := set p | p in active;
    var released := AfterUnInhibit(r, from, cookie, closeOk);
    UnInhibitPreservesValid(r, from, cookie, closeOk);
    assert !Referenced(released.next.locks, fd) by {
      forall k | k in released.next.locks
        ensures released.next.locks[k].fd != fd
      {
        assert k != cookie;
      }
    }
    assert r.locks[cookie].peer !in names;
    SweepReclaimsExactlyDead(r, names);
  }
}
