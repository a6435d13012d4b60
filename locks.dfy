/**
  The inhibit-lock table of the ScreenSaver-to-logind bridge, as values.

  A `Registry` is the bridge's lock map together with the bookkeeping
  that lets us speak about file descriptors: which inhibitor fds logind
  has handed out (`issued`) and how many times each has been closed
  (`closed`). The functions below give the effect of one atomic
  operation (the bridge's mutex makes each of them atomic) and are the
  specification that the methods of `Bridge.InhibitBridge` are proved
  against.
*/
module Locks {

  /** Cookies are drawn with a 32-bit random generator and widened to `uint`. */
  const CookieLimit: nat := 0x1_0000_0000

  type Cookie32 = c: nat | c < CookieLimit

  /** A unique bus name of a connected client (a D-Bus sender). */
  type Peer = string

  /** Identity of one `*os.File` returned by logind's Inhibit call. */
  type Fd = nat

  datatype Option<T> = None | Some(value: T)

  /** What an external call (logind's Inhibit, here) came back with. */
  datatype Outcome<T> = Ok(value: T) | Failed(reason: string)

  /** One outstanding inhibit lock (the source's lockDetails). */
  datatype Lock = Lock(cookie: nat, peer: Peer, who: string, why: string, fd: Fd)

  /** The D-Bus errors the two exported methods return. */
  datatype BusError =
    | InhibitRefused(reason: string)   // logind would not hand out an inhibitor
    | InvalidCookie(cookie: Cookie32)  // UnInhibit of a cookie that is not in the table
    | CloseFailed(cookie: Cookie32)    // the lock was removed but closing its fd reported an error

  datatype Registry = Registry(locks: map<nat, Lock>, issued: set<Fd>, closed: multiset<Fd>)

  datatype InhibitReply = InhibitReply(next: Registry, cookie: nat, err: Option<BusError>)

  datatype UnInhibitReply = UnInhibitReply(next: Registry, err: Option<BusError>)

  // ---------------------------------------------------------------------
  // The table invariant
  // ---------------------------------------------------------------------

  /** Every entry is stored under its own cookie. */
  predicate KeyedByCookie(locks: map<nat, Lock>) {
    forall k :: k in locks ==> locks[k].cookie == k
  }

  /** Every key fits in the 32 bits the cookie was drawn from. */
  predicate CookiesInRange(locks: map<nat, Lock>) {
    forall k :: k in locks ==> k < CookieLimit
  }

  /** No two entries share an inhibitor fd. */
  predicate DistinctFds(locks: map<nat, Lock>) {
    forall j, k :: j in locks && k in locks && locks[j].fd == locks[k].fd ==> j == k
  }

  /** Every fd referenced from the table was handed out by logind and is still open. */
  predicate HeldOpen(r: Registry) {
    forall k :: k in r.locks ==> r.locks[k].fd in r.issued && r.locks[k].fd !in r.closed
  }

  /** Only fds that logind handed out are closed, and none more than once. */
  predicate ClosedAtMostOnce(r: Registry) {
    forall fd :: fd in r.closed ==> fd in r.issued && r.closed[fd] == 1
  }

  predicate Valid(r: Registry) {
    && KeyedByCookie(r.locks)
    && CookiesInRange(r.locks)
    && DistinctFds(r.locks)
    && HeldOpen(r)
    && ClosedAtMostOnce(r)
  }

  /** True when some entry of the table holds `fd`. */
  predicate Referenced(locks: map<nat, Lock>, fd: Fd) {
    exists k :: k in locks && locks[k].fd == fd
  }

  /** The table the bridge starts with (`make(map[uint]*lockDetails)`). */
  function Empty(): (r: Registry)
    ensures Valid(r) && r.locks == map[] && r.closed == multiset{}
  {
    Registry(map[], {}, multiset{})
  }

  // ---------------------------------------------------------------------
  // Inhibit
  // ---------------------------------------------------------------------

  /**
    Inhibit(from, who, why): ask logind for an inhibitor; if it refuses,
    report the error and leave the table alone; otherwise store a new lock
    under the drawn cookie, overwriting whatever was there, and return the
    cookie.
  */
  function AfterInhibit(r: Registry, from: Peer, who: string, why: string,
                        logind: Outcome<Fd>, draw: Cookie32): (reply: InhibitReply)
    ensures reply.err.None? <==> logind.Ok?
    ensures logind.Failed? ==>
      reply.next == r && reply.cookie == 0 && reply.err == Some(InhibitRefused(logind.reason))
    ensures logind.Ok? ==>
      && reply.cookie == draw && reply.cookie < CookieLimit
      && reply.next.locks.Keys == r.locks.Keys + {draw}
      && reply.next.locks[draw] == Lock(draw, from, who, why, logind.value)
      && (forall k :: k in r.locks && k != draw ==> reply.next.locks[k] == r.locks[k])
      && reply.next.issued == r.issued + {logind.value}
      && reply.next.closed == r.closed
  {
    match logind
    case Failed(reason) => InhibitReply(r, 0, Some(InhibitRefused(reason)))
    case Ok(fd) =>
      var ld := Lock(draw, from, who, why, fd);
      InhibitReply(Registry(r.locks[ld.cookie := ld], r.issued + {fd}, r.closed), ld.cookie, None)
  }

  /** Inhibit keeps the table invariant, provided logind hands out a new fd. */
  lemma InhibitPreservesValid(r: Registry, from: Peer, who: string, why: string,
                              logind: Outcome<Fd>, draw: Cookie32)
    requires Valid(r)
    requires logind.Ok? ==> logind.value !in r.issued
    ensures Valid(AfterInhibit(r, from, who, why, logind, draw).next)
  {
    if logind.Ok? {
      var next := AfterInhibit(r, from, who, why, logind, draw).next;
      forall j, k | j in next.locks && k in next.locks && next.locks[j].fd == next.locks[k].fd
        ensures j == k
      {
        if j != draw && k != draw {
          assert r.locks[j].fd == r.locks[k].fd;
        }
      }
    }
  }

  /**
    A cookie collision: the drawn cookie is already in use. The old lock
    is replaced and its fd is neither closed nor referenced any more, so
    neither UnInhibit nor a heartbeat can reach it: the bridge never
    closes it.
  */
  lemma CollisionLeaksFd(r: Registry, from: Peer, who: string, why: string, fd: Fd, draw: Cookie32)
    requires Valid(r)
    requires fd !in r.issued
    requires draw in r.locks
    ensures var lost := r.locks[draw].fd;
            var next := AfterInhibit(r, from, who, why, Ok(fd), draw).next;
            && next.locks[draw] != r.locks[draw]
            && lost in next.issued && lost !in next.closed
            && !Referenced(next.locks, lost)
  {
    var lost := r.locks[draw].fd;
    var next := AfterInhibit(r, from, who, why, Ok(fd), draw).next;
    assert lost in r.issued;
    forall k | k in next.locks
      ensures next.locks[k].fd != lost
    {
      if k != draw {
        assert r.locks[k].fd != r.locks[draw].fd;
      }
    }
  }

  // ---------------------------------------------------------------------
  // UnInhibit
  // ---------------------------------------------------------------------

  /**
    UnInhibit(cookie): reject a cookie that is not in the table; otherwise
    delete the entry (by the cookie stored in the lock) and then close its
    fd. The entry is gone whether or not the close succeeds; a failed close
    is still reported. The calling peer is not compared with the lock's
    peer: any client may release any lock.
  */
  function AfterUnInhibit(r: Registry, from: Peer, cookie: Cookie32, closeOk: bool): (reply: UnInhibitReply)
    ensures cookie !in r.locks ==>
      reply.next == r && reply.err == Some(InvalidCookie(cookie))
    ensures cookie in r.locks && KeyedByCookie(r.locks) ==>
      && (forall k :: k in reply.next.locks <==> k in r.locks && k != cookie)
      && (forall k :: k in reply.next.locks ==> reply.next.locks[k] == r.locks[k])
      && reply.next.issued == r.issued
      && reply.next.closed[r.locks[cookie].fd] == r.closed[r.locks[cookie].fd] + 1
      && (forall fd :: fd != r.locks[cookie].fd ==> reply.next.closed[fd] == r.closed[fd])
      && reply.err == (if closeOk then None else Some(CloseFailed(cookie)))
  {
    if cookie !in r.locks then
      UnInhibitReply(r, Some(InvalidCookie(cookie)))
    else
      var ld := r.locks[cookie];
      var next := Registry(r.locks - {ld.cookie}, r.issued, r.closed + multiset{ld.fd});
      UnInhibitReply(next, if closeOk then None else Some(CloseFailed(cookie)))
  }

  lemma UnInhibitPreservesValid(r: Registry, from: Peer, cookie: Cookie32, closeOk: bool)
    requires Valid(r)
    ensures Valid(AfterUnInhibit(r, from, cookie, closeOk).next)
  {
    if cookie in r.locks {
      var next := AfterUnInhibit(r, from, cookie, closeOk).next;
      var gone := r.locks[cookie].fd;
      forall k | k in next.locks
        ensures next.locks[k].fd in next.issued && next.locks[k].fd !in next.closed
      {
        assert next.locks[k].fd != gone;
      }
    }
  }

  /** Releasing a cookie again straight away is rejected and changes nothing. */
  lemma ReleaseIsFinal(r: Registry, from: Peer, again: Peer, cookie: Cookie32, closeOk: bool, closeOk': bool)
    requires Valid(r)
    requires cookie in r.locks
    ensures var first := AfterUnInhibit(r, from, cookie, closeOk);
            var second := AfterUnInhibit(first.next, again, cookie, closeOk');
            second.next == first.next && second.err == Some(InvalidCookie(cookie))
  {
    assert r.locks[cookie].cookie == cookie;
  }

  /**
    Cookies are not retired: the rejection above lasts only until a later
    Inhibit draws the same value, which stores a new lock under it, so an
    UnInhibit of that cookie succeeds again.
  */
  lemma ReleasedCookieCanBeRedrawn(r: Registry, from: Peer, who: string, why: string,
                                   cookie: Cookie32, fd: Fd, closeOk: bool)
    requires Valid(r)
    requires cookie in r.locks && fd !in r.issued
    ensures var released := AfterUnInhibit(r, from, cookie, closeOk).next;
            var redrawn := AfterInhibit(released, from, who, why, Ok(fd), cookie).next;
            var again := AfterUnInhibit(redrawn, from, cookie, true);
            && cookie !in released.locks
            && redrawn.locks[cookie] == Lock(cookie, from, who, why, fd)
            && again.err == None && cookie !in again.next.locks
  {
    assert r.locks[cookie].cookie == cookie;
  }

  /**
    Inhibit followed by UnInhibit of the returned cookie, when the draw did
    not collide, gives back the table it started from; the only trace left
    is the fd, now closed once.
  */
  lemma InhibitThenUnInhibitRestores(r: Registry, from: Peer, who: string, why: string,
                                     fd: Fd, draw: Cookie32, closeOk: bool)
    requires Valid(r)
    requires fd !in r.issued && draw !in r.locks
    ensures var inhibited := AfterInhibit(r, from, who, why, Ok(fd), draw);
            var released := AfterUnInhibit(inhibited.next, from, draw, closeOk);
            && released.next.locks == r.locks
            && released.next.closed == r.closed + multiset{fd}
            && released.next.issued == r.issued + {fd}
  {
    var inhibited := AfterInhibit(r, from, who, why, Ok(fd), draw);
    InhibitPreservesValid(r, from, who, why, Ok(fd), draw);
    var released := AfterUnInhibit(inhibited.next, from, draw, closeOk);
    assert released.next.locks == r.locks;
  }

  // ---------------------------------------------------------------------
  // Heartbeat reclamation
  // ---------------------------------------------------------------------

  /** The entries whose peer is still on the bus. */
  function Survivors(locks: map<nat, Lock>, names: set<Peer>): (s: map<nat, Lock>)
  {
    map k | k in locks && locks[k].peer in names :: locks[k]
  }

  /** The fds of the entries whose peer has left the bus. */
  function Reclaimed(locks: map<nat, Lock>, names: set<Peer>): (fds: set<Fd>)
  {
    set k | k in locks && locks[k].peer !in names :: locks[k].fd
  }

  /**
    One sweep with the set of connected bus names: every lock whose peer
    is not in the set has its fd closed and is deleted; every other lock
    stays as it was. An empty or unknown peer gets no special treatment.
    (The sweep closes once per dropped entry; counting closes per fd is
    exact because the invariant keeps the table's fds distinct.)
  */
  function AfterSweep(r: Registry, names: set<Peer>): (next: Registry)
    ensures forall k :: k in next.locks <==> k in r.locks && r.locks[k].peer in names
    ensures forall k :: k in next.locks ==> next.locks[k] == r.locks[k]
    ensures next.issued == r.issued
    ensures forall k :: k in r.locks && r.locks[k].peer !in names ==>
              next.closed[r.locks[k].fd] == r.closed[r.locks[k].fd] + 1
    ensures forall fd :: !Referenced(r.locks, fd) ==> next.closed[fd] == r.closed[fd]
  {
    Registry(Survivors(r.locks, names), r.issued, r.closed + multiset(Reclaimed(r.locks, names)))
  }

  /**
    The sweep keeps the invariant, and it closes each dropped lock's fd
    exactly once: open before, closed once after; a surviving lock's fd
    stays open.
  */
  lemma SweepReclaimsExactlyDead(r: Registry, names: set<Peer>)
    requires Valid(r)
    ensures var next := AfterSweep(r, names);
            && Valid(next)
            && (forall k :: k in r.locks && r.locks[k].peer !in names ==>
                  r.closed[r.locks[k].fd] == 0 && next.closed[r.locks[k].fd] == 1)
            && (forall k :: k in next.locks ==> next.locks[k].fd !in next.closed)
  {
    var next := AfterSweep(r, names);
    var gone := Reclaimed(r.locks, names);
    forall k | k in next.locks
      ensures next.locks[k].fd !in gone
    {
      forall j | j in r.locks && r.locks[j].peer !in names
        ensures r.locks[j].fd != next.locks[k].fd
      {
        assert j != k;
      }
    }
    forall fd | fd in next.closed
      ensures fd in next.issued && next.closed[fd] == 1
    {
      if fd in gone {
        var j :| j in r.locks && r.locks[j].peer !in names && r.locks[j].fd == fd;
        assert fd in r.issued && fd !in r.closed;
      }
    }
  }

  /**
    One heartbeat tick: if listing the bus names failed, nothing changes;
    otherwise sweep with the listed names.
  */
  function AfterTick(r: Registry, listed: Option<seq<Peer>>): (next: Registry)
    ensures listed.None? ==> next == r
    ensures listed.Some? ==>
      && (forall k :: k in next.locks <==> k in r.locks && r.locks[k].peer in listed.value)
      && (forall k :: k in next.locks ==> next.locks[k] == r.locks[k])
  {
    match listed
    case None => r
    case Some(active) => AfterSweep(r, set p | p in active)
  }
}
