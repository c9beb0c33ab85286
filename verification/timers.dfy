/** The process-local registry of pending bet wake-ups (`timeoutsForBets`):
    one `setTimeout` handle remembered per bet id, together with the set of
    callbacks the runtime still has scheduled. Arming a bet clears the
    remembered handle first, so at most one wake-up per bet is ever pending.
 */
module Timers {

  /** The largest delay `setTimeout` honours, 2^31 - 1 milliseconds. */
  const TimeoutMax: int := 2147483647

  /** The delay the runtime actually waits: a requested delay outside
      [1, TimeoutMax] (a time already past, or too far ahead) becomes 1 ms. */
  function RuntimeDelay(requested: int): (d: int)
    ensures 1 <= d <= TimeoutMax
    ensures 1 <= requested <= TimeoutMax ==> d == requested
    ensures !(1 <= requested <= TimeoutMax) ==> d == 1
  {
    if 1 <= requested <= TimeoutMax then requested else 1
  }

  /** The instant a wake-up for `endAt`, armed at `now`, fires. */
  function FireTime(endAt: int, now: int): (t: int)
    ensures now < t <= now + TimeoutMax
    ensures now < endAt <= now + TimeoutMax ==> t == endAt
    ensures endAt <= now ==> t == now + 1
    ensures endAt > now + TimeoutMax ==> t == now + 1
  {
    now + RuntimeDelay(endAt - now)
  }

  /** One scheduled callback: the bet it resolves, when it fires, and a
      serial number that tells two handles of the same bet apart. */
  datatype Wakeup = Wakeup(betId: string, fireAt: int, serial: nat)

  /** `handles` is the `timeoutsForBets` map; `pending` the callbacks still
      scheduled in the runtime; `next` the serial of the next handle. */
  datatype Registry = Registry(handles: map<string, Wakeup>, pending: set<Wakeup>, next: nat)

  /** Every pending callback is the one its bet's handle remembers, and
      every remembered handle belongs to its own bet. */
  ghost predicate Inv(r: Registry)
  {
    && (forall w :: w in r.pending ==> w.betId in r.handles && r.handles[w.betId] == w)
    && (forall id :: id in r.handles ==> r.handles[id].betId == id && r.handles[id].serial < r.next)
  }

  /** The callbacks pending for one bet. */
  function PendingFor(r: Registry, betId: string): set<Wakeup>
  {
    set w | w in r.pending && w.betId == betId
  }

  /** The registry at process start. */
  function Empty(): (r: Registry)
    ensures Inv(r)
    ensures forall id :: PendingFor(r, id) == {}
  {
    Registry(map[], {}, 0)
  }

  /** `refreshBetTimeout`: clear the remembered handle of `betId`, if any,
      then schedule a new callback for `endAt` and remember it. */
  function Arm(r: Registry, betId: string, endAt: int, now: int): (r': Registry)
    ensures Inv(r) ==> Inv(r')
    ensures Inv(r) ==> PendingFor(r', betId) == {Wakeup(betId, FireTime(endAt, now), r.next)}
    ensures Inv(r) ==> forall other :: other != betId ==> PendingFor(r', other) == PendingFor(r, other)
    ensures r'.handles.Keys == r.handles.Keys + {betId}
  {
    var cleared :=
      if betId in r.handles then r.(pending := r.pending - {r.handles[betId]}, handles := r.handles - {betId})
      else r;
    var w := Wakeup(betId, FireTime(endAt, now), r.next);
    Registry(cleared.handles[betId := w], cleared.pending + {w}, r.next + 1)
  }

  /** The runtime runs a pending callback: it is no longer pending. The
      handle stays in the map; the bot never deletes fired handles. */
  function Fire(r: Registry, w: Wakeup): (r': Registry)
    ensures Inv(r) ==> Inv(r')
    ensures w !in r'.pending
    ensures r'.handles == r.handles
    ensures forall other :: other != w.betId ==> PendingFor(r', other) == PendingFor(r, other)
  {
    r.(pending := r.pending - {w})
  }

  /** While the invariant holds, no bet has two pending callbacks. */
  lemma AtMostOnePending(r: Registry, betId: string)
    requires Inv(r)
    ensures |PendingFor(r, betId)| <= 1
  {
    var p := PendingFor(r, betId);
    if p != {} {
      var w :| w in p;
      assert p == {w};
    }
  }
}
