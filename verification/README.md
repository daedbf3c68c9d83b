# Department website scripts: a Dafny model

This project models the behaviour in `script.js`, the single client-side
script of a college department's static website. The DOM is treated only as
the place where results show up. Each feature becomes an immutable state and
pure transition functions:

- **Slideshow** (`slideshow.dfy`, `auto_slide.dfy`). The state is the 1-based
  `currentSlide` index, the `active` flags of the slides and of the indicator
  dots (the two counts may differ, and either may be zero), and the autoplay
  intervals. `slideTimer` holds an interval id, and the model also keeps the
  set of intervals still running. Events are manual change, jump, interval
  tick, mouse enter/leave and page hidden/visible.
- **Mobile menu** (`mobile_menu.dfy`). The state is the `active` class on the
  toggle button, the `active` class on the menu, and `aria-expanded`. A click
  runs the target's own handler and then bubbles to the document listener.
  Escape is handled by the keyboard listener.
- **Contact form** (`contact_form.dfy`, `text.dfy`). The submit handler's
  per-field errors and its decision to switch to "Sending...". `trim` and
  the pattern `^[^\s@]+@[^\s@]+\.[^\s@]+$` are written over `seq<char>`,
  using an explicit ECMAScript white-space table.
- **Active page** (`active_page.dfy`). The current page is the last
  `/`-separated segment of the path, or `index.html` when that segment is
  empty. Navigation links whose `href` equals the page get `active`.
- **Header throttle** (`header_scroll.dfy`). The `ticking` flag allows at most
  one queued animation-frame update. The update picks one of two styles by
  checking whether the scroll offset is above 100.

Three behaviours of the code that a reader might not expect, and that the model keeps:

- `startAutoSlide` does not clear the interval that `slideTimer` held before.
  Mouse-leave and page-visible call it directly, so resuming while autoplay
  already runs leaves an interval nothing can clear. `ResumeWhilePlayingOrphans`
  and `OrphanPersists` state this, and `StepAtMostOne` gives the exact condition
  under which "at most one interval" survives an event.
- `showSlide` wraps by a single step, not modulo the slide count. A jump past
  the end always lands on slide 1 (`JumpPastEndIsNotModular`).
- `initSlideshow` has no guard for a page without slides. The index becomes 1,
  the first indicator (if any) is activated, and an interval starts
  (`InitWithoutSlides`).

The script declares `currentSlide` at top level both as a `let` variable
(line 139) and as a function (line 173). A JavaScript engine rejects that
before running any of the script. The model follows the evident intent and
gives the jump function its own name, `Slideshow.GoTo`.

## Model

| member | source | states |
|---|---|---|
| `AutoSlide.StartAutoSlide` | script.js:149-153 | adds exactly one fresh running interval and makes `slideTimer` hold it; every interval running before keeps running and is no longer held (orphaned) |
| `AutoSlide.StopAutoSlide` | script.js:156-158 | the held interval stops running, all others keep running, and `slideTimer` is unchanged; if at most the held interval ran, none runs afterwards |
| `AutoSlide.RestartAutoSlide` | script.js:161-164 | the held interval is replaced by one fresh interval; if it was the only one running, exactly the new held interval runs afterwards |
| `Slideshow.ShowSlide` | script.js:179-208 | above the slide count the index becomes 1, below 1 it becomes the count, otherwise it stays; slide and dot flags are set exactly at index-1; lengths and timers unchanged; with `n == currentSlide` and at least one slide the index is in range |
| `Slideshow.ShowSlideActivatesOne` | script.js:191-207 | with at least one slide, exactly one slide is active (at `currentSlide-1`), at most one dot is active, and it is the dot at `currentSlide-1` when that many dots exist |
| `Slideshow.ShowSlideShown` | script.js:179-208 | showing the selected slide makes the flags mark exactly that slide and keeps the index a slide number, also with zero slides |
| `Slideshow.ShowSlideIdempotent` | script.js:179-208 | showing the slide that `showSlide` left selected changes nothing, including with zero slides |
| `Slideshow.ChangeSlide` | script.js:167-170 | the index becomes `cur+offset` when that is a slide number, 1 when it is past the last slide, and the last slide when it is below 1; slide and dot flags are set exactly at the new index; autoplay restarts |
| `Slideshow.GoTo` | script.js:173-176 | an in-range target is shown as given; past the end gives 1, below 1 gives the last slide; slide and dot flags are set exactly at the new index; autoplay restarts |
| `Slideshow.Init` | script.js:143-146 | the index is 1 and exactly one interval runs, the held one |
| `Slideshow.Step` | script.js:526-541 | hover and visibility events never move the slide or touch a flag; pausing stops only the held interval; resuming adds exactly one interval and holds it; a tick of a running interval is `changeSlide(1)`, and a cleared interval does nothing |
| `Slideshow.ChangeSlideCyclic` | script.js:167-189 | from a valid index, moving by -1, 0 or +1 gives `((cur-1+offset) mod count)+1` |
| `Slideshow.ChangeSlideWrapsAtEnds` | script.js:184-189 | +1 on the last slide gives 1; -1 on the first gives the last |
| `Slideshow.JumpPastEndIsNotModular` | script.js:184-189 | any jump past the end lands on 1; with three slides a jump to 8 gives 1, not the modular answer 2 |
| `Slideshow.ThreeSlideWalk` | script.js:167-176 | with three slides from 1: +1 gives 2, +1 twice more gives 1, and jumping to 3 gives 3 |
| `Slideshow.InitWithoutSlides` | script.js:143-146 | with no slides, initialisation still sets the index to 1, activates the first dot if any, and starts one interval |
| `Slideshow.InitShown` | script.js:143-146 | initialisation leaves the flags marking exactly the current slide and the index a slide number, the starting point of `RunKeepsShown` |
| `Slideshow.RunKeepsShown` | script.js:526-541 | after initialisation, no sequence of navigation, tick, hover or visibility events breaks "flags mark exactly the current slide, index in range" |
| `Slideshow.StepAtMostOne` | script.js:526-541 | from a state with at most the held interval running, an event keeps that property exactly when it is not a resume arriving while an interval runs |
| `Slideshow.OrphanPersists` | script.js:149-158 | an orphaned interval is never cleared or held again, whatever events follow |
| `Slideshow.ResumeWhilePlayingOrphans` | script.js:526-534 | page-visible while autoplay runs leaves two intervals running, and the first stays orphaned forever |
| `Slideshow.PauseResumeRestartsOne` | script.js:537-541 | hover in then out (or hidden then visible) while playing leaves exactly one running interval, a new one, and the slide unchanged |
| `MobileMenu.ToggleClick` | script.js:27-34 | both classes flip independently, and `aria-expanded` becomes the button's new state as text |
| `MobileMenu.LinkClick` | script.js:37-44 | always yields the closed state with `aria-expanded` "false" |
| `MobileMenu.DocumentClick` | script.js:47-56 | closes exactly when the menu is open and the click is outside both menu and button; otherwise nothing changes |
| `MobileMenu.Click` | script.js:27-56 | with bubbling: the button toggles, a link closes, a click inside the menu changes nothing, a click elsewhere closes an open menu |
| `MobileMenu.KeyDown` | script.js:411-421 | Escape closes an open menu; any other key, or Escape on a closed menu, changes nothing |
| `MobileMenu.RunKeepsConsistent` | script.js:27-56 | from agreeing classes and attribute, every sequence of clicks and keys keeps button, menu and `aria-expanded` in agreement |
| `MobileMenu.ToggleTwiceRestores` | script.js:27-34 | two button clicks restore a consistent menu exactly |
| `MobileMenu.ToggleKeepsMismatch` | script.js:27-34 | a button and menu that disagree still disagree after a toggle |
| `MobileMenu.ClosingPathsAgree` | script.js:37-56 | link click, an outside click on an open menu, and Escape on an open menu all give the same closed state with `aria-expanded` "false" |
| `Text.IsWhitespace` | script.js:235-237 | the white-space set shared by `trim` and the regex class `\s` (line 291): the ECMAScript WhiteSpace and LineTerminator code points |
| `Text.Trim` | script.js:235-237 | the result is an infix of the input, with only white space removed on either side; it neither starts nor ends with white space; it is empty iff the input is all white space |
| `Text.TrimIdempotent` | script.js:235-237 | trimming twice equals trimming once |
| `Text.TrimOfTrimmed` | script.js:235-237 | a string that neither starts nor ends with white space is left unchanged by trimming |
| `ContactForm.MatchesEmailPattern` | script.js:291 | the literal reading of the pattern: the string splits as `a@b.c` with `a`, `b`, `c` non-empty runs of `[^\s@]` |
| `ContactForm.IsValidEmail` | script.js:290-293 | accepts exactly the strings `a@b.c` with `a`, `b`, `c` non-empty and free of white space and '@' |
| `ContactForm.EmailCheckIsPattern` | script.js:291 | the single left-to-right check agrees with the literal reading of the pattern, in both directions |
| `ContactForm.EmailAcceptsExamples` | script.js:291 | "a@b.c" and "a@b.c.d" are accepted |
| `ContactForm.EmailRejectsExamples` | script.js:291 | addresses without a dot after '@', with an empty part, with two '@' or with a space are rejected |
| `ContactForm.CheckFields` | script.js:243-261 | each field is checked on its own: name and message get their "required" error iff blank after trimming; email gets "required" iff blank, "Please enter a valid email" iff non-blank but not matching, never both |
| `ContactForm.Submit` | script.js:243-269 | proceeds to "Sending..." iff name and message are non-blank and the trimmed email matches the pattern; otherwise stops with all the field errors, at least one present |
| `ContactForm.SubmitReportsEveryField` | script.js:245-261 | a blank name and a malformed email are both reported in one submit |
| `ActivePage.Split` | script.js:459 | `split('/')` gives at least one piece, none containing '/'; one piece, the whole path, iff the path has no '/' |
| `ActivePage.SplitLastSuffix` | script.js:459 | the last piece of `split` is a suffix of the path, preceded by '/' unless it is the whole path |
| `ActivePage.CurrentPage` | script.js:459 | the current page is never empty and never contains '/', so the test for an empty page on line 466 can never succeed |
| `ActivePage.SplitLastIsLastSegment` | script.js:459 | the piece `pop()` takes is the longest '/'-free suffix of the path |
| `ActivePage.CurrentPageIsLastSegment` | script.js:459 | the page is the last segment, or "index.html" when that segment is empty |
| `ActivePage.CurrentPageOfFile` | script.js:459 | a path ending in `/name` gives `name` |
| `ActivePage.CurrentPageOfFolder` | script.js:459 | a path ending in '/' gives "index.html" |
| `ActivePage.SetActivePage` | script.js:460-469 | a link ends up active iff it was active or its `href` equals the current page; no link loses `active` and no `href` changes |
| `HeaderScroll.StyleFor` | script.js:112-118 | the raised style is chosen iff the scroll offset is strictly above 100 |
| `HeaderScroll.OnScroll` | script.js:124-129 | queues an update only when none is queued; the style is untouched |
| `HeaderScroll.OnFrame` | script.js:109-121 | a frame with an update queued clears `ticking` and always writes one of the two styles, raised iff the offset at that moment is above 100, resting otherwise; with none queued it changes nothing |
| `HeaderScroll.RunKeepsThrottled` | script.js:107-129 | for any mix of scrolls and frames, an update is queued exactly when `ticking` is set, and never more than one |
| `HeaderScroll.RunFromStartThrottled` | script.js:107-129 | from the initial state (`ticking` false, nothing queued), no sequence of scrolls and frames queues more than one update |
| `HeaderScroll.BurstThenFrame` | script.js:107-129 | any burst of scroll events queues exactly one update; the following frame runs it, leaving nothing queued and the style raised iff the offset at the frame is above 100, resting otherwise |

## Left out

- DOM lookups and missing elements. The model assumes the menu button, the menu, the header, the slideshow container, and the contact form with its name, email, message and submit elements exist. Without the form, `initFormHandling` returns early (script.js:220-223); a missing field would make reading its `.value` throw (script.js:235-237). In the source, a missing menu button or menu makes `initMobileMenu` register nothing, and a missing header disables the throttle. A page without `.slideshow-container` never starts the slideshow.
- Script load order. The hover bindings (lines 537-541) are attached only if the container exists when the script first runs. The model assumes it does.
- Timing. The 5000 ms interval, the 1000 ms and 2000 ms delays of the simulated send, the toast timings and `requestAnimationFrame` scheduling are not modelled. Intervals are abstract ids, and frames are events.
- What happens after "Sending...". The button relabelling, the success toast, the form reset and all error markup and styling are presentation only. The model records which message is attached to which field.
- `MobileMenu.KeyDown`: moving focus to the button on Escape is not modelled. Neither is the TypeError the handler would raise if the menu existed without its button.
- `Text.IsWhitespace`: characters are Unicode code points. JavaScript strings are UTF-16 code units, so a surrogate pair counts as one character here.
- `HeaderScroll.StyleFor`: the scroll offset is an integer, but browsers may report a fractional `scrollY`. The two styles stand for the source's literal CSS values.
- Scroll-triggered animations, card hover effects, staggered transition delays, the Tab/mouse focus styling, console logging and the global `error`/`unhandledrejection` handlers. These are browser callbacks that only add classes or styles, or write diagnostics.
