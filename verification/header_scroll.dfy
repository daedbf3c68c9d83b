/** The scroll-reactive header: a `ticking` flag lets at most one
    animation-frame update be queued, and the update picks one of two header
    styles by comparing the scroll offset with 100 pixels. */
module HeaderScroll {

  const Threshold := 100

  /** `Resting`: background alpha 0.95 and a 20px shadow; `Raised`: alpha
      0.98 and a 30px shadow. `Initial` is whatever the stylesheet gave the
      header before the first update. */
  datatype Style = Initial | Resting | Raised

  /** `pending` counts the `updateHeader` callbacks queued with
      `requestAnimationFrame` and not yet run. */
  datatype Header = Header(ticking: bool, pending: nat, style: Style)

  const Start := Header(false, 0, Initial)

  /** The style `updateHeader` chooses for a vertical scroll offset. */
  function StyleFor(scrollY: int): (s: Style)
    ensures s != Initial
    ensures s == Raised <==> scrollY > Threshold
  {
    if scrollY > Threshold then Raised else Resting
  }

  /** The scroll listener: queues an update unless one is already queued. */
  function OnScroll(h: Header): (r: Header)
    ensures r.ticking && r.style == h.style
    ensures r.pending == if h.ticking then h.pending else h.pending + 1
  {
    if !h.ticking then h.(pending := h.pending + 1, ticking := true) else h
  }

  /** An animation frame: every queued update runs, reading the scroll offset
      at that moment; with nothing queued the frame changes nothing. */
  function OnFrame(h: Header, scrollY: int): (r: Header)
    ensures r.pending == 0
    ensures h.pending > 0 ==> !r.ticking && r.style == StyleFor(scrollY)
    ensures h.pending > 0 ==> r.style != Initial && (r.style == Raised <==> scrollY > Threshold)
    ensures h.pending == 0 ==> r == h
  {
    if h.pending == 0 then h else Header(false, 0, StyleFor(scrollY))
  }

  datatype Event = Scroll | Frame(scrollY: int)

  function Step(h: Header, e: Event): Header {
    match e
    case Scroll => OnScroll(h)
    case Frame(y) => OnFrame(h, y)
  }

  function Run(h: Header, events: seq<Event>): Header
    decreases |events|
  {
    if events == [] then h else Run(Step(h, events[0]), events[1..])
  }

  /** The throttle's invariant: an update is queued exactly when `ticking`
      is set, and never more than one. */
  predicate Throttled(h: Header) {
    h.pending == if h.ticking then 1 else 0
  }

  /** However many scroll events arrive between frames, at most one header
      update is ever pending. */
  lemma {:induction false} RunKeepsThrottled(h: Header, events: seq<Event>)
    requires Throttled(h)
    ensures Throttled(Run(h, events)) && Run(h, events).pending <= 1
    decreases |events|
  {
    if events != [] {
      RunKeepsThrottled(Step(h, events[0]), events[1..]);
    }
  }

  /** From the page's initial state (`ticking` false, nothing queued), no
      sequence of scrolls and frames ever queues more than one update. */
  lemma RunFromStartThrottled(events: seq<Event>)
    ensures Throttled(Run(Start, events)) && Run(Start, events).pending <= 1
  {
    assert Throttled(Start);
    RunKeepsThrottled(Start, events);
  }

  /** A burst of scroll events followed by one frame yields exactly one
      update, reflecting the offset at the frame. */
  lemma {:induction false} BurstThenFrame(h: Header, n: nat, scrollY: int)
    requires Throttled(h)
    ensures Run(h, seq(n + 1, _ => Scroll)).pending == 1
    ensures var r := Run(h, seq(n + 1, _ => Scroll) + [Frame(scrollY)]);
            && Throttled(r) && r.pending == 0
            && r.style == StyleFor(scrollY) && r.style != Initial
            && (r.style == Raised <==> scrollY > Threshold)
  {
    var scrolls := seq(n + 1, _ => Scroll);
    BurstQueuesOne(h, n + 1);
    RunAppend(h, scrolls, [Frame(scrollY)]);
  }

  lemma {:induction false} BurstQueuesOne(h: Header, n: nat)
    requires Throttled(h) && n > 0
    ensures Run(h, seq(n, _ => Scroll)).pending == 1
    decreases n
  {
    var rest := seq(n - 1, _ => Scroll);
    assert seq(n, _ => Scroll)[1..] == rest;
    if n > 1 {
      BurstQueuesOne(OnScroll(h), n - 1);
    }
  }

  lemma {:induction false} RunAppend(h: Header, a: seq<Event>, b: seq<Event>)
    ensures Run(h, a + b) == Run(Run(h, a), b)
    decreases |a|
  {
    if a != [] {
      assert (a + b)[1..] == a[1..] + b;
      RunAppend(Step(h, a[0]), a[1..], b);
    } else {
      assert a + b == b;
    }
  }
}
