/** The slideshow's autoplay timer as the script manages it: one variable,
    `slideTimer`, holding the id of the last interval started, and the set of
    intervals the browser still runs. Durations are not modelled: an
    interval is an abstract id that is either live or cleared. */
module AutoSlide {
  import opened Optional

  /** `handle` is the value of `slideTimer` (`None` while still undefined);
      `live` holds the ids of intervals not yet cleared; `next` is the id the
      browser hands out for the next `setInterval`. */
  datatype Timers = Timers(handle: Option<nat>, live: set<nat>, next: nat)

  /** No interval exists yet; browsers number intervals from 1. */
  const NoTimers := Timers(None, {}, 1)

  /** Every id handed out so far, live or held, is below `next`, so the next
      `setInterval` yields an id distinct from all of them. */
  predicate FreshIds(t: Timers) {
    && (forall id :: id in t.live ==> id < t.next)
    && (t.handle.Some? ==> t.handle.value < t.next)
  }

  /** The ids `clearInterval(slideTimer)` would clear. */
  function Held(t: Timers): set<nat> {
    if t.handle.Some? then {t.handle.value} else {}
  }

  /** An interval that is still running but that `slideTimer` no longer
      refers to: no later `stopAutoSlide` can clear it. */
  predicate Orphaned(t: Timers, id: nat) {
    id in t.live && t.handle != Some(id)
  }

  /** Autoplay has at most one running interval, and it is the one held. */
  predicate AtMostOne(t: Timers) {
    t.live <= Held(t)
  }

  /** `startAutoSlide`: starts a fresh interval and overwrites `slideTimer`
      with it, without clearing the interval the variable held before. */
  function StartAutoSlide(t: Timers): (r: Timers)
    ensures r.handle.Some? && r.live == t.live + {r.handle.value}
    ensures FreshIds(t) ==> FreshIds(r) && r.handle.value !in t.live && r.handle != t.handle
    ensures FreshIds(t) ==> forall id :: id in t.live ==> Orphaned(r, id)
  {
    Timers(Some(t.next), t.live + {t.next}, t.next + 1)
  }

  /** `stopAutoSlide`: clears the interval `slideTimer` holds (nothing when it
      is undefined) and leaves the variable as it is. */
  function StopAutoSlide(t: Timers): (r: Timers)
    ensures r.handle == t.handle && r.next == t.next
    ensures r.live == t.live - Held(t)
    ensures forall id :: id in r.live ==> Orphaned(r, id) == Orphaned(t, id)
    ensures FreshIds(t) ==> FreshIds(r)
    ensures AtMostOne(t) ==> r.live == {}
  {
    match t.handle
    case None => t
    case Some(h) => t.(live := t.live - {h})
  }

  /** `restartAutoSlide`: stop, then start. The held interval is replaced by
      one fresh interval; every other running interval keeps running. */
  function RestartAutoSlide(t: Timers): (r: Timers)
    ensures r.handle.Some? && r.live == (t.live - Held(t)) + {r.handle.value}
    ensures FreshIds(t) ==> FreshIds(r) && r.handle.value !in t.live
    ensures AtMostOne(t) ==> r.live == {r.handle.value} && AtMostOne(r)
  {
    StartAutoSlide(StopAutoSlide(t))
  }
}
