# Inhibit-lock registry of the ScreenSaver-to-logind bridge

The bridge exports `org.freedesktop.ScreenSaver` on the session bus. It
turns each `Inhibit(who, why)` call into a systemd-logind idle inhibitor
and hands back a 32-bit cookie. `UnInhibit(cookie)` releases the
inhibitor. A heartbeat releases every inhibitor whose requesting bus peer
has left the bus. This project models the bridge's lock table
(`locks map[uint]*lockDetails`) and the three operations that change it.
It proves what each operation does to the table and to the inhibitor file
descriptors, and what holds over any history of operations.

- `locks.dfy`, module `Locks`: the lock record, the table as a value
  (`Registry`: the map, plus the fds logind has issued and how many times
  each was closed), the table invariant `Valid`, and one pure function per
  operation (`AfterInhibit`, `AfterUnInhibit`, `AfterSweep`, `AfterTick`)
  with lemmas about each.
- `bridge.dfy`, module `Bridge`: the class `InhibitBridge`. It holds the
  map as a field that its methods update in place. The sweep is a loop
  over the table that closes and deletes as it goes. Each method is
  proved against the matching function in `Locks`. `CollectNames` is the
  loop that builds the set of connected names.
- `traces.dfy`, module `Traces`: arbitrary sequences of calls. It proves
  four things: the invariant always holds; no fd is ever closed twice;
  the bridge never closes the fd lost to a cookie collision; and an explicit
  release racing with a reclamation closes the fd exactly once.

External calls become parameters:

- logind's `Inhibit` becomes `Outcome<Fd>`: a new fd, or an error. Each
  fd stands for one `*os.File` object, so it is assumed new
  (`fd !in issued`).
- `rand.Uint32()` becomes the `draw: Cookie32` parameter.
- The `ListNames` reply becomes `Option<seq<Peer>>`, where `None` means
  the call failed.
- The result of `fd.Close()` in `UnInhibit` becomes `closeOk: bool`.

A close that reports an error still counts as the one release of that fd.
The sweep ignores what `Close` returns, and so does the model.

Two things the code does are modelled as written:

- Cookies are not checked for collisions. An unchecked random draw
  overwrites any entry already stored under that cookie (main.go:164,
  main.go:173). The bridge then never closes the overwritten lock's fd:
  no UnInhibit and no heartbeat reaches it (`CollisionLeaksFd`,
  `CollisionFdNeverClosed`). After a collision, an `UnInhibit` of that
  cookie by the first owner releases the second owner's lock.
- The heartbeat has no exception for an empty peer. Every lock whose
  peer is not among the listed names is dropped (main.go:134), and
  `AfterSweep` does the same.

## Model

| member | source | states |
|---|---|---|
| Locks.Empty | main.go:87 | the bridge starts with an empty table, and the empty table satisfies the invariant |
| Locks.AfterInhibit | main.go:157-177 | if logind fails: the error is returned, the cookie is 0 and the table is unchanged. If it succeeds: the drawn cookie (below 2^32) is returned, the table gains exactly that key, holding a lock with the caller's peer, who, why and the new fd, and every other key keeps its lock |
| Locks.InhibitPreservesValid | main.go:163-173 | Inhibit keeps the invariant: keys equal their lock's cookie and are below 2^32, fds are distinct, referenced fds are open, no fd is closed twice |
| Locks.CollisionLeaksFd | main.go:164-173 | when the drawn cookie is already a key, the old lock is replaced; its fd stays open and no entry references it any more |
| Locks.AfterUnInhibit | main.go:179-195 | an unknown cookie gets "invalid cookie", with the table and fds unchanged. A known cookie: exactly that key is removed, every other entry is kept, exactly that lock's fd is closed once more, and a failed close is reported although the key is gone. The calling peer plays no part |
| Locks.UnInhibitPreservesValid | main.go:183-192 | UnInhibit keeps the invariant |
| Locks.ReleaseIsFinal | main.go:183-187 | after a successful UnInhibit, the next UnInhibit of the same cookie, by any peer, is rejected as invalid and changes nothing |
| Locks.ReleasedCookieCanBeRedrawn | main.go:164-192 | a released cookie is not retired: a later Inhibit that draws the same value stores a new lock under it, and an UnInhibit of that cookie then succeeds |
| Locks.InhibitThenUnInhibitRestores | main.go:157-192 | Inhibit with a non-colliding cookie followed by UnInhibit of that cookie gives back the original table, with the new fd closed once |
| Locks.AfterSweep | main.go:131-139 | after a sweep, the table holds exactly the old entries whose peer is connected, unchanged. Each dropped entry's fd is closed one more time. Fds of no entry are not touched. No fd is issued |
| Locks.SweepReclaimsExactlyDead | main.go:132-139 | the sweep keeps the invariant. Each dropped lock's fd was open before and is closed exactly once after. Each kept lock's fd is still open |
| Locks.AfterTick | main.go:120-139 | a failed name listing leaves everything unchanged. Otherwise the table keeps exactly the entries whose peer is among the listed names |
| Bridge.CollectNames | main.go:126-129 | the set built from the listed names contains exactly the names in the list |
| Bridge.InhibitBridge.constructor | main.go:83-89 | a new bridge has an empty table that satisfies the invariant |
| Bridge.InhibitBridge.Inhibit | main.go:157-177 | the in-place insertion gives the returned cookie (below 2^32), error and new table described by AfterInhibit, and keeps the invariant |
| Bridge.InhibitBridge.UnInhibit | main.go:179-195 | the lookup, delete-by-stored-cookie and close give the error and new table described by AfterUnInhibit, and keep the invariant |
| Bridge.InhibitBridge.Reclaim | main.go:131-140 | the loop that visits every entry once, closing and deleting the ones whose peer is gone, ends in the state described by AfterSweep and keeps the invariant |
| Bridge.InhibitBridge.HeartbeatTick | main.go:120-140 | one tick (skip when the listing failed, else build the name set and sweep) ends in the state described by AfterTick |
| Traces.StepPreservesValid | main.go:157-195 | every single operation keeps the invariant, provided logind hands out a new fd |
| Traces.RunPreservesValid | main.go:120-195 | every sequence of operations keeps the invariant |
| Traces.AtMostOnceRelease | main.go:132-192 | starting from an empty table, after any history no fd has been closed twice, every entry is stored under its own cookie below 2^32, and every fd in the table is open |
| Traces.StepKeepsOrphan | main.go:132-192 | no operation closes an issued, still-open fd that no entry references |
| Traces.OrphanStaysOpen | main.go:132-192 | such an fd stays unclosed and unreferenced for the rest of any history |
| Traces.CollisionFdNeverClosed | main.go:164-173 | the bridge never closes the fd of a lock overwritten by a cookie collision: no later UnInhibit or heartbeat reaches it |
| Traces.ReleaseAndReclaimRace | main.go:131-192 | an UnInhibit and a heartbeat that finds the lock's peer gone close the lock's fd exactly once and remove the cookie, in either order. If the heartbeat goes first, the UnInhibit is rejected as invalid |

## Left out

- Connecting to the session bus, claiming the well-known name, exporting the interface and the introspection document at both paths, and connecting to logind (main.go:63-98). These are I/O and foreign library calls.
- The arguments sent to logind's Inhibit ("idle", the program name, `who + " " + why`, "block"; main.go:158). logind is represented only by its outcome.
- The heartbeat goroutine, its ticker, the `doneCh` handshake and `Shutdown` (main.go:100, 105-112, 141-155). These are concurrency. The mutex (main.go:59) is represented by making each method atomic. The logind call (main.go:158) and the ListNames call that `nameMap` is built from (main.go:121-129) run before the mutex is taken. The model stays sound because `logind` and `listed` are unconstrained parameters. One consequence is not stated by any lemma: a sweep can use a stale listing. A peer that joins the bus after ListNames and calls Inhibit before the sweep takes the mutex loses its lock in that tick.
- `math/rand`: the cookie is the `draw` parameter (main.go:164).
- `lockDetails.String` and all logging (main.go:47-50 and the `log` calls). These produce output only.
- `main`: flag parsing, working out the executable's name, and signal handling (main.go:197-219).
- The error texts of the D-Bus errors. Each error is a `BusError` constructor that keeps only the cookie or the reason.
- Identity of fds: every `*os.File` that logind returns is a distinct object. The model states this as the requirement that a successful logind outcome carries an fd not seen before.
- Locks.AfterSweep: counts one close per dropped fd rather than one per dropped entry. The two differ only if two entries share an fd, and the invariant rules that out.
- Bridge.InhibitBridge.Reclaim: iterates over a snapshot of the keys and looks each entry up, where the source ranges over the map's values while deleting from it (main.go:132-139). Go's range semantics visit each entry that is not deleted before it is reached exactly once, and the sweep only ever deletes the entry it is visiting, so both visit every entry once.
- Garbage-collection finalizers on `*os.File`. Go closes an unreachable file at a time no one controls, so a lock overwritten by a cookie collision is eventually closed by the runtime. `closed` counts only the bridge's own `Close` calls (main.go:136, main.go:189).
