/** The mobile hamburger menu: the `active` class on the toggle button and
    on the navigation menu, and the button's `aria-expanded` attribute,
    driven by clicks (with bubbling to the document) and the Escape key. */
module MobileMenu {
  import opened Optional

  /** `button` and `nav` are the `active` classes of the toggle button and of
      the navigation menu; `aria` is the button's `aria-expanded` attribute
      (`None` while the markup has not set it). */
  datatype Menu = Menu(button: bool, nav: bool, aria: Option<string>)

  /** `setAttribute` turns the boolean into its string form. */
  function AriaText(open: bool): string {
    if open then "true" else "false"
  }

  const Closed := Menu(false, false, Some("false"))

  /** Classes agree with each other and the attribute agrees with them. */
  predicate Consistent(m: Menu) {
    m.button == m.nav && m.aria == Some(AriaText(m.button))
  }

  /** Where a click lands: the toggle button (or inside it), a navigation
      link, some other point inside the menu, or anywhere else. */
  datatype Target = ToggleButton | NavLink | InsideMenu | Elsewhere

  /** The toggle button's own click handler: both classes flip, each on its
      own, and the attribute follows the button. */
  function ToggleClick(m: Menu): (r: Menu)
    ensures r.button == !m.button && r.nav == !m.nav
    ensures r.aria == Some(AriaText(r.button))
    ensures Consistent(m) ==> Consistent(r)
  {
    var b := !m.button;
    Menu(b, !m.nav, Some(AriaText(b)))
  }

  /** A navigation link's click handler: always closes. */
  function LinkClick(m: Menu): (r: Menu)
    ensures r == Closed && Consistent(r)
  {
    Closed
  }

  /** The document-level click listener: closes the menu when it is open and
      the click landed neither inside the menu nor on the button. */
  function DocumentClick(m: Menu, t: Target): (r: Menu)
    ensures (t == Elsewhere && m.nav) ==> r == Closed
    ensures !(t == Elsewhere && m.nav) ==> r == m
  {
    var inside := t == NavLink || t == InsideMenu;
    var onButton := t == ToggleButton;
    if !inside && !onButton && m.nav then Closed else m
  }

  /** A click as the page sees it: the target's own handler runs first, then
      the event bubbles to the document listener. */
  function Click(m: Menu, t: Target): (r: Menu)
    ensures t == ToggleButton ==> r == ToggleClick(m)
    ensures t == NavLink ==> r == Closed
    ensures t == InsideMenu ==> r == m
    ensures t == Elsewhere ==> r == if m.nav then Closed else m
  {
    match t
    case ToggleButton => DocumentClick(ToggleClick(m), t)
    case NavLink => DocumentClick(LinkClick(m), t)
    case _ => DocumentClick(m, t)
  }

  /** The keyboard listener: Escape closes an open menu (and moves focus to
      the button, which is not modelled); other keys do nothing. */
  function KeyDown(m: Menu, key: string): (r: Menu)
    ensures key == "Escape" && m.nav ==> r == Closed
    ensures !(key == "Escape" && m.nav) ==> r == m
  {
    if key == "Escape" && m.nav then Closed else m
  }

  datatype Event = ClickOn(target: Target) | Key(key: string)

  function Step(m: Menu, e: Event): Menu {
    match e
    case ClickOn(t) => Click(m, t)
    case Key(k) => KeyDown(m, k)
  }

  function Run(m: Menu, events: seq<Event>): Menu
    decreases |events|
  {
    if events == [] then m else Run(Step(m, events[0]), events[1..])
  }

  /** Every handler keeps the two classes and the attribute in agreement. */
  lemma StepKeepsConsistent(m: Menu, e: Event)
    requires Consistent(m)
    ensures Consistent(Step(m, e))
  {
  }

  /** From a consistent start, no sequence of clicks and key presses can make
      the button, the menu and `aria-expanded` disagree. */
  lemma {:induction false} RunKeepsConsistent(m: Menu, events: seq<Event>)
    requires Consistent(m)
    ensures Consistent(Run(m, events))
    decreases |events|
  {
    if events != [] {
      StepKeepsConsistent(m, events[0]);
      RunKeepsConsistent(Step(m, events[0]), events[1..]);
    }
  }

  /** Clicking the toggle button twice restores a consistent menu exactly. */
  lemma ToggleTwiceRestores(m: Menu)
    requires Consistent(m)
    ensures Click(Click(m, ToggleButton), ToggleButton) == m
  {
  }

  /** The toggle flips the classes independently, so a button and menu that
      disagree keep disagreeing until a closing event. */
  lemma ToggleKeepsMismatch(m: Menu)
    requires m.button != m.nav
    ensures var r := Click(m, ToggleButton); r.button != r.nav
  {
  }

  /** Every closing path ends in the same closed state, whatever came before
      (for Escape and outside clicks, when the menu was open). */
  lemma ClosingPathsAgree(m: Menu)
    ensures Click(m, NavLink) == Closed
    ensures m.nav ==> Click(m, Elsewhere) == Closed
    ensures m.nav ==> KeyDown(m, "Escape") == Closed
    ensures !Closed.button && !Closed.nav && Closed.aria == Some("false")
  {
  }
}
