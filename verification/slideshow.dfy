/** The announcements slideshow: the 1-based `currentSlide` index, the
    `active` classes of the slides and of the indicator dots, and the
    autoplay interval, driven by manual navigation, interval ticks, mouse
    hover and page visibility. */
module Slideshow {
  import opened AutoSlide

  /** `cur` is `currentSlide`; `slides` and `dots` are the `active` classes of
      the `.slide` and `.indicator` elements, in document order. Their
      numbers are fixed by the page and need not agree. */
  datatype State = State(cur: int, slides: seq<bool>, dots: seq<bool>, timers: Timers)

  /** Flags with exactly position `k` set (none when `k` is out of range):
      what "remove `active` from all, then add it at `k` if an element is
      there" leaves behind. */
  function OneHot(n: nat, k: int): (r: seq<bool>)
    ensures |r| == n
    ensures forall i :: 0 <= i < n ==> (r[i] <==> i == k)
  {
    seq(n, i => i == k)
  }

  /** Number of set flags. */
  function CountActive(flags: seq<bool>): nat
  {
    if flags == [] then 0
    else CountActive(flags[..|flags| - 1]) + (if flags[|flags| - 1] then 1 else 0)
  }

  lemma {:induction false} OneHotCount(n: nat, k: int)
    ensures CountActive(OneHot(n, k)) == if 0 <= k < n then 1 else 0
  {
    if n > 0 {
      assert OneHot(n, k)[..n - 1] == OneHot(n - 1, k);
      OneHotCount(n - 1, k);
    }
  }

  /** `showSlide(n)`. The source tests `n` but writes `currentSlide`, which
      its callers have already set: above the last slide it wraps to 1,
      below 1 to the last slide, and otherwise `currentSlide` stays as it is.
      The wrap is a single step, not arithmetic modulo the slide count. Then
      every slide and dot is deactivated and the ones at `currentSlide - 1`,
      where such an element exists, are activated. */
  function ShowSlide(s: State, n: int): (r: State)
    ensures |r.slides| == |s.slides| && |r.dots| == |s.dots| && r.timers == s.timers
    ensures n > |s.slides| ==> r.cur == 1
    ensures n < 1 ==> r.cur == |s.slides|
    ensures 1 <= n <= |s.slides| ==> r.cur == s.cur
    ensures forall i :: 0 <= i < |r.slides| ==> (r.slides[i] <==> i == r.cur - 1)
    ensures forall i :: 0 <= i < |r.dots| ==> (r.dots[i] <==> i == r.cur - 1)
    ensures n == s.cur && |s.slides| >= 1 ==> 1 <= r.cur <= |s.slides|
  {
    var count := |s.slides|;
    var c1 := if n > count then 1 else s.cur;
    var c2 := if n < 1 then count else c1;
    State(c2, OneHot(count, c2 - 1), OneHot(|s.dots|, c2 - 1), s.timers)
  }

  /** `changeSlide(offset)`: `currentSlide += offset`, show it, restart
      autoplay. */
  function ChangeSlide(s: State, offset: int): (r: State)
    ensures |r.slides| == |s.slides| && |r.dots| == |s.dots|
    ensures r.timers == RestartAutoSlide(s.timers)
    ensures 1 <= s.cur + offset <= |s.slides| ==> r.cur == s.cur + offset
    ensures s.cur + offset > |s.slides| ==> r.cur == 1
    ensures s.cur + offset < 1 ==> r.cur == |s.slides|
    ensures forall i :: 0 <= i < |r.slides| ==> (r.slides[i] <==> i == r.cur - 1)
    ensures forall i :: 0 <= i < |r.dots| ==> (r.dots[i] <==> i == r.cur - 1)
    ensures |s.slides| >= 1 ==> 1 <= r.cur <= |s.slides|
  {
    var moved := s.(cur := s.cur + offset);
    var shown := ShowSlide(moved, moved.cur);
    shown.(timers := RestartAutoSlide(shown.timers))
  }

  /** The jump bound to the indicator dots (`currentSlide(n)` in the source):
      `currentSlide = n`, show it, restart autoplay. */
  function GoTo(s: State, n: int): (r: State)
    ensures |r.slides| == |s.slides| && |r.dots| == |s.dots|
    ensures r.timers == RestartAutoSlide(s.timers)
    ensures 1 <= n <= |s.slides| ==> r.cur == n
    ensures n > |s.slides| ==> r.cur == 1
    ensures n < 1 ==> r.cur == |s.slides|
    ensures forall i :: 0 <= i < |r.slides| ==> (r.slides[i] <==> i == r.cur - 1)
    ensures forall i :: 0 <= i < |r.dots| ==> (r.dots[i] <==> i == r.cur - 1)
  {
    var moved := s.(cur := n);
    var shown := ShowSlide(moved, n);
    shown.(timers := RestartAutoSlide(shown.timers))
  }

  /** `initSlideshow` on a fresh page: `currentSlide` is 1, show it, start
      autoplay. There is no guard for a page without slides. */
  function Init(slides: seq<bool>, dots: seq<bool>): (r: State)
    ensures |r.slides| == |slides| && |r.dots| == |dots|
    ensures r.cur == 1
    ensures r.timers.handle.Some? && r.timers.live == {r.timers.handle.value}
    ensures AtMostOne(r.timers) && FreshIds(r.timers)
  {
    var shown := ShowSlide(State(1, slides, dots, NoTimers), 1);
    shown.(timers := StartAutoSlide(shown.timers))
  }

  /** What can happen to a running slideshow: manual navigation, a tick of a
      running interval, the mouse entering or leaving the container, and
      the page becoming hidden or visible. */
  datatype Event =
    | Change(offset: int)
    | Jump(n: int)
    | Tick(id: nat)
    | MouseEnter
    | MouseLeave
    | Hidden
    | Visible

  /** One event. Every running interval calls `changeSlide(1)` when it fires;
      a cleared one never fires again. Hover and visibility call
      `stopAutoSlide`/`startAutoSlide` directly. */
  function Step(s: State, e: Event): (r: State)
    ensures |r.slides| == |s.slides| && |r.dots| == |s.dots|
    ensures (e.MouseEnter? || e.Hidden? || e.MouseLeave? || e.Visible?) ==>
              r.cur == s.cur && r.slides == s.slides && r.dots == s.dots
    ensures (e.MouseEnter? || e.Hidden?) ==> r.timers.live == s.timers.live - Held(s.timers)
    ensures (e.MouseEnter? || e.Hidden?) ==> r.timers.handle == s.timers.handle
    ensures (e.MouseLeave? || e.Visible?) ==>
              r.timers.handle.Some? && r.timers.live == s.timers.live + {r.timers.handle.value}
    ensures e.Tick? && e.id !in s.timers.live ==> r == s
    ensures e.Tick? && e.id in s.timers.live ==> r == ChangeSlide(s, 1)
  {
    match e
    case Change(offset) => ChangeSlide(s, offset)
    case Jump(n) => GoTo(s, n)
    case Tick(id) => if id in s.timers.live then ChangeSlide(s, 1) else s
    case MouseEnter => s.(timers := StopAutoSlide(s.timers))
    case Hidden => s.(timers := StopAutoSlide(s.timers))
    case MouseLeave => s.(timers := StartAutoSlide(s.timers))
    case Visible => s.(timers := StartAutoSlide(s.timers))
  }

  function Run(s: State, events: seq<Event>): (r: State)
    ensures |r.slides| == |s.slides| && |r.dots| == |s.dots|
    decreases |events|
  {
    if events == [] then s else Run(Step(s, events[0]), events[1..])
  }

  // ---------------------------------------------------------------------
  // Display invariant

  /** What `showSlide` leaves behind: the flags mark `cur` and nothing else,
      and `cur` is a slide number (1 or 0 when there are no slides). */
  predicate Shown(s: State) {
    && s.slides == OneHot(|s.slides|, s.cur - 1)
    && s.dots == OneHot(|s.dots|, s.cur - 1)
    && (|s.slides| >= 1 ==> 1 <= s.cur <= |s.slides|)
    && (|s.slides| == 0 ==> s.cur == 0 || s.cur == 1)
  }

  /** After showing the slide its caller has selected, with at least one
      slide: exactly one slide is active, the one at `cur`; at most one dot
      is active, and it is the one at `cur` when there are that many dots. */
  lemma ShowSlideActivatesOne(s: State)
    requires |s.slides| >= 1
    ensures var r := ShowSlide(s, s.cur);
            && 1 <= r.cur <= |r.slides|
            && CountActive(r.slides) == 1 && r.slides[r.cur - 1]
            && CountActive(r.dots) <= 1
            && (|r.dots| >= r.cur ==> r.dots[r.cur - 1] && CountActive(r.dots) == 1)
  {
    var r := ShowSlide(s, s.cur);
    assert r.slides == OneHot(|s.slides|, r.cur - 1);
    assert r.dots == OneHot(|s.dots|, r.cur - 1);
    OneHotCount(|s.slides|, r.cur - 1);
    OneHotCount(|s.dots|, r.cur - 1);
  }

  /** Showing the slide a caller selected establishes the display invariant,
      also on a page without slides. */
  lemma ShowSlideShown(s: State)
    ensures Shown(ShowSlide(s, s.cur))
  {
    var r := ShowSlide(s, s.cur);
    assert r.slides == OneHot(|s.slides|, r.cur - 1);
    assert r.dots == OneHot(|s.dots|, r.cur - 1);
  }

  /** `showSlide` is idempotent: showing the slide it left selected changes
      neither the index nor any flag, with or without slides. */
  lemma ShowSlideIdempotent(s: State)
    ensures var r := ShowSlide(s, s.cur); ShowSlide(r, r.cur) == r
  {
    var r := ShowSlide(s, s.cur);
    ShowSlideShown(s);
    assert r.slides == OneHot(|r.slides|, r.cur - 1);
    assert r.dots == OneHot(|r.dots|, r.cur - 1);
  }

  lemma StepKeepsShown(s: State, e: Event)
    requires Shown(s)
    ensures Shown(Step(s, e))
  {
    match e
    case Change(offset) => ShowSlideShown(s.(cur := s.cur + offset));
    case Jump(n) => ShowSlideShown(s.(cur := n));
    case Tick(id) => ShowSlideShown(s.(cur := s.cur + 1));
    case _ =>
  }

  /** Whatever happens after initialisation, the flags mark exactly the
      current slide and the index stays a slide number. */
  lemma {:induction false} RunKeepsShown(s: State, events: seq<Event>)
    requires Shown(s)
    ensures Shown(Run(s, events))
    decreases |events|
  {
    if events != [] {
      StepKeepsShown(s, events[0]);
      RunKeepsShown(Step(s, events[0]), events[1..]);
    }
  }

  lemma InitShown(slides: seq<bool>, dots: seq<bool>)
    ensures Shown(Init(slides, dots))
  {
    ShowSlideShown(State(1, slides, dots, NoTimers));
  }

  // ---------------------------------------------------------------------
  // Navigation

  /** From a slide number, moving by -1, 0 or +1 is cyclic: the result is
      `((cur - 1 + offset) mod count) + 1`, so +1 on the last slide gives 1
      and -1 on the first gives the last. */
  lemma ChangeSlideCyclic(s: State, offset: int)
    requires 1 <= s.cur <= |s.slides|
    requires -1 <= offset <= 1
    ensures ChangeSlide(s, offset).cur == (s.cur - 1 + offset) % |s.slides| + 1
  {
    var count := |s.slides|;
    var x := s.cur - 1 + offset;
    var r := ChangeSlide(s, offset);
    ModOneStep(x, count);
    if x == -1 {
      assert r.cur == count;
    } else if x == count {
      assert r.cur == 1;
    } else {
      assert r.cur == x + 1;
    }
  }

  /** The modulus of a value at most one step outside `[0, count)`. */
  lemma ModOneStep(x: int, count: int)
    requires count >= 1 && -1 <= x <= count
    ensures x % count == if x == -1 then count - 1 else if x == count then 0 else x
  {
    if x == -1 {
      assert x == (-1) * count + (count - 1);
    } else if x == count {
      assert x == 1 * count + 0;
    }
  }

  lemma ChangeSlideWrapsAtEnds(s: State)
    requires |s.slides| >= 1
    ensures s.cur == |s.slides| ==> ChangeSlide(s, 1).cur == 1
    ensures s.cur == 1 ==> ChangeSlide(s, -1).cur == |s.slides|
  {
  }

  /** The wrap is one step, not a modulus: jumping past the end always lands
      on the first slide, never on slide `n mod count`. With three slides a
      jump to 8 shows slide 1, where `((8 - 1) mod 3) + 1` would be 2. */
  lemma JumpPastEndIsNotModular(s: State, n: int)
    requires |s.slides| >= 1 && n > |s.slides|
    ensures GoTo(s, n).cur == 1
    ensures |s.slides| == 3 && n == 8 ==> GoTo(s, n).cur != (n - 1) % 3 + 1
  {
  }

  /** With three slides starting from slide 1: +1 gives 2, two more +1 give
      1 again, and a jump to 3 gives 3. */
  lemma ThreeSlideWalk(s: State)
    requires |s.slides| == 3 && s.cur == 1
    ensures var a := ChangeSlide(s, 1); a.cur == 2
    ensures var a := ChangeSlide(ChangeSlide(ChangeSlide(s, 1), 1), 1); a.cur == 1
    ensures GoTo(ChangeSlide(ChangeSlide(ChangeSlide(s, 1), 1), 1), 3).cur == 3
  {
  }

  /** A page without slides still runs the slideshow: the index becomes 1,
      no slide is activated, the first indicator (if any) is, and an
      interval starts. */
  lemma InitWithoutSlides(dots: seq<bool>)
    ensures var r := Init([], dots);
            && r.cur == 1 && r.slides == []
            && (|dots| >= 1 ==> r.dots[0])
            && |r.timers.live| == 1
  {
  }

  // ---------------------------------------------------------------------
  // Autoplay intervals

  /** From a state where the only running interval is the held one (or none
      runs), an event keeps it that way exactly when it is not a resume
      (mouse leaving, page visible) arriving while an interval runs. */
  lemma StepAtMostOne(s: State, e: Event)
    requires FreshIds(s.timers) && AtMostOne(s.timers)
    ensures AtMostOne(Step(s, e).timers) <==>
              !((e.MouseLeave? || e.Visible?) && s.timers.live != {})
  {
    var r := Step(s, e);
    if (e.MouseLeave? || e.Visible?) && s.timers.live != {} {
      var id :| id in s.timers.live;
      assert Orphaned(r.timers, id);
    }
  }

  lemma StepKeepsFreshIds(s: State, e: Event)
    requires FreshIds(s.timers)
    ensures FreshIds(Step(s, e).timers)
  {
  }

  /** An orphaned interval keeps running forever: no event sequence clears
      it, and `slideTimer` never refers to it again. */
  lemma {:induction false} OrphanPersists(s: State, events: seq<Event>, id: nat)
    requires FreshIds(s.timers) && Orphaned(s.timers, id)
    ensures Orphaned(Run(s, events).timers, id)
    decreases |events|
  {
    if events != [] {
      var r := Step(s, events[0]);
      StepKeepsFreshIds(s, events[0]);
      assert Orphaned(r.timers, id);
      OrphanPersists(r, events[1..], id);
    }
  }

  /** The page becoming visible (or the mouse leaving) while autoplay runs
      leaves two intervals running; the first is orphaned, and every later
      tick of it still advances the slideshow. */
  lemma ResumeWhilePlayingOrphans(slides: seq<bool>, dots: seq<bool>)
    ensures var s := Init(slides, dots);
            var r := Step(s, Visible);
            var first := s.timers.handle.value;
            && |r.timers.live| == 2
            && Orphaned(r.timers, first)
            && (forall events :: Orphaned(Run(r, events).timers, first))
  {
    var s := Init(slides, dots);
    var r := Step(s, Visible);
    var first := s.timers.handle.value;
    assert r.timers.live == {first, first + 1};
    forall events ensures Orphaned(Run(r, events).timers, first) {
      OrphanPersists(r, events, first);
    }
  }

  /** Pausing and resuming (hover in and out, or hidden then visible) from a
      playing slideshow leaves exactly one running interval, a new one, and
      the slide unchanged. */
  lemma PauseResumeRestartsOne(s: State, pause: Event, resume: Event)
    requires FreshIds(s.timers) && s.timers.handle.Some? && s.timers.live == {s.timers.handle.value}
    requires pause == MouseEnter || pause == Hidden
    requires resume == MouseLeave || resume == Visible
    ensures var r := Run(s, [pause, resume]);
            && r.timers.handle.Some? && r.timers.live == {r.timers.handle.value}
            && r.timers.handle != s.timers.handle
            && r.cur == s.cur && r.slides == s.slides && r.dots == s.dots
  {
    var events := [pause, resume];
    var mid := Step(s, pause);
    assert events[1..] == [resume];
    assert Run(s, events) == Run(mid, [resume]);
    assert Run(mid, [resume]) == Step(mid, resume);
    assert mid.timers.live == {};
  }
}
