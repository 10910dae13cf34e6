# Hot Chocolate Co. site script — a Dafny model of its UI controllers

The site's client-side script wires up a handful of small controllers, one
after the other, when the page loads: a navigation dropdown and hamburger menu with
active-link highlighting, an image carousel with autoplay, collapsible menu
sections, an FAQ accordion, a "Today's Special" modal and scroll-reveal
animations. The script exists in two copies. `script.js` is the full one.
`assets/js/script.js` is a reduced one without the modal and the contact form.
Every controller the two copies share has the same logic in both, line for line.
The modules here therefore model each controller once, and each applies to both copies.

Each controller that changes state in place is a class. Its fields are the
class flags and closure variables that its event handlers update, and each
handler is a method called directly. A method's postcondition gives its whole new
state. Class invariants (`Valid`, `Synced`, `SingleTimer`) state what the
handlers keep true. The pure parts are functions with lemmas about them: the
slide-index formula, the swipe threshold, the FAQ click rule, the page-name
and `includes` match, and the order-by-order effect of an observer batch.

| module | file | controller |
|---|---|---|
| `Flags` | flags.dfy | counting set flags over a list of elements; one-hot lists |
| `CarouselController` | carousel.dfy | `initCarousel` |
| `FaqAccordion` | faq.dfy | `initFAQ` |
| `MenuSections` | menu_sections.dfy | `initMenuSections` |
| `ActiveLink` | active_link.dfy | the page-name and link-matching rule of `initNav` |
| `Navigation` | nav.dfy | `initNav`: dropdown, hamburger, link marking |
| `ModalController` | modal.dfy | `initModal` (full copy only) |
| `ScrollReveal` | reveal.dfy | `initScrollReveal` |

Where the two copies put the same controller:

| controller | script.js | assets/js/script.js |
|---|---|---|
| dropdown | 26-48 | 15-28 |
| hamburger | 51-59 | 30-37 |
| active link | 62-68 | 39-44 |
| carousel setup and dots | 75-99 | 49-71 |
| `goTo`, `next`, `prev` | 102-112 | 73-80 |
| autoplay start and stop | 115-121 | 82-83 |
| arrows, hover, keys | 124-136 | 85-95 |
| swipe | 139-151 | 97-104 |
| carousel start | 154-155 | 106-107 |
| menu sections | 205-216 | 111-116 |
| FAQ | 221-242 | 119-130 |
| scroll reveal | 278-298 | 133-146 |

The model follows the code in these places, where a plain reading of the design
would expect something else:

- A carousel with no slides is not short-circuited. `(0 + 0) % 0` makes the index NaN, and the model keeps that NaN (`JsNumber.NaN`).
- `startAutoplay` does not clear a running interval. Only the arrow, key and swipe handlers stop before starting, so `mouseleave` can leave two intervals running (see Findings).
- Active-link matching is substring containment (`includes`), not suffix matching. On `x.html` the `index.html` link is marked too (`ActiveLink.HomeLinkMarkedOnXPage`).
- A dot click calls `goTo` alone and does not restart autoplay.

## Model

| member | source | states |
|---|---|---|
| `CarouselController.JsRem` | script.js:103 | JavaScript's `%`: the remainder has the dividend's sign, is smaller than the divisor in magnitude, and differs from the dividend by a multiple of the divisor |
| `CarouselController.Normalize` | script.js:103 | for every index ≥ -total the slide index lands in [0, total) and is the index modulo total; the result is NaN exactly when there are no slides (or the index already was NaN) |
| `CarouselController.NormalizeBelowRange` | script.js:103 | the formula is only safe for the indices the carousel passes it: index -total-1 already gives slide -1 |
| `CarouselController.AdvanceWraps` | script.js:111 | k calls of `next` from slide c show slide (c + k) mod total |
| `CarouselController.FullCycle` | script.js:111-116 | after `total` autoplay steps the carousel is back on the slide it started from |
| `CarouselController.PrevUndoesNext` | script.js:111-112 | `prev` after `next`, and `next` after `prev`, return to the same slide, including across the wrap-around |
| `CarouselController.ActiveDotsOneHot` | script.js:105-107 | once `goTo` has set the dots, exactly the current slide's dot is active when the index is in range, and none is at NaN |
| `CarouselController.SwipeMove` | script.js:144-151 | a drag of more than 40 units to the left goes forward, more than 40 to the right goes back, and anything within 40 (40 included) does nothing |
| `CarouselController.Carousel.ExactlyOneDot` | script.js:89-107 | under the carousel invariant, whenever dots exist exactly one is active and it is `dots[current]` |
| `CarouselController.Carousel.constructor` | script.js:74-99 | the setup builds one dot per slide when a dots container exists, then `goTo(0)` and `startAutoplay()` (lines 154-155) leave slide 0 shown with one live interval |
| `CarouselController.Carousel.GoTo` | script.js:102-108 | the new index is the normalised one, the offset is index × 100, every dot is rewritten so that only the current one is active, timers untouched |
| `CarouselController.Carousel.Next` | script.js:111 | moves to `current + 1` normalised and keeps the invariant |
| `CarouselController.Carousel.Prev` | script.js:112 | moves to `current - 1` normalised and keeps the invariant |
| `CarouselController.Carousel.StartAutoplay` | script.js:115-117 | a fresh interval becomes live and its handle overwrites the stored one, which is not cleared |
| `CarouselController.Carousel.StopAutoplay` | script.js:119-121 | clears exactly the stored interval; a no-op on `undefined` or an interval already cleared |
| `CarouselController.Carousel.Restart` | script.js:124-125 | stop, move, start: the stored interval is cleared before the new one starts, so no interval is leaked and a single running interval stays single |
| `CarouselController.Carousel.PrevClick` | script.js:124 | with a previous arrow: go back one slide and restart autoplay; without one nothing changes |
| `CarouselController.Carousel.NextClick` | script.js:125 | with a next arrow: go forward one slide and restart autoplay; without one nothing changes |
| `CarouselController.Carousel.DotClick` | script.js:95 | a click on dot i shows slide i with only dot i active and leaves the timers alone |
| `CarouselController.Carousel.KeyDown` | script.js:133-136 | ArrowLeft goes back, ArrowRight forward, both with an autoplay restart; other keys change nothing |
| `CarouselController.Carousel.TouchStart` | script.js:140-142 | records the touch's x coordinate, changes nothing else and keeps `Valid` |
| `CarouselController.Carousel.TouchEnd` | script.js:144-151 | moves as `SwipeMove` of the drag says and restarts autoplay only when it moves |
| `CarouselController.Carousel.MouseEnter` | script.js:128 | clears the stored interval; with a single running interval autoplay stops completely |
| `CarouselController.Carousel.MouseLeave` | script.js:129 | starts a new interval without clearing: every interval running before becomes unreachable |
| `CarouselController.Carousel.MouseLeaveRestart` | script.js:129 | the intended `mouseleave`: stop then start, which leaks nothing and keeps a single interval single |
| `CarouselController.Carousel.Tick` | script.js:116 | a live interval firing advances one slide; timers unchanged |
| `CarouselController.HoverClickLeave` | script.js:124-129 | hover, next-arrow click, leave, hover again: an unreachable interval still runs under the pointer |
| `CarouselController.HoverClickLeaveRestart` | script.js:128-129 | the same gesture with the intended `mouseleave` leaves no interval running while hovered |
| `FaqAccordion.AfterClick` | script.js:228-240 | after a click on item k, every other item is closed and k is open exactly when it was closed before |
| `FaqAccordion.ClickLeavesAtMostOne` | script.js:228-240 | whatever the markup started with, a click leaves at most one item open: only the clicked item if it was closed, none (`NoneSet`) if it was open |
| `FaqAccordion.ClickTwice` | script.js:237-239 | two clicks on the same item close every other item and leave that item as it was: only it open if it was open, none open (`NoneSet`) if it was closed |
| `FaqAccordion.SecondItemTakesOver` | script.js:231-239 | clicking item j and then a different item k leaves exactly k open |
| `FaqAccordion.Accordion.constructor` | script.js:221-227 | the items start as the markup has them; only items with a question button get a handler |
| `FaqAccordion.Accordion.Click` | script.js:228-240 | the open flags become `AfterClick` of the old ones; a click on an item without a question button changes nothing |
| `MenuSections.Toggled` | assets/js/script.js:114 | a header click flips that section's `collapsed` flag and leaves every other section unchanged |
| `MenuSections.ToggleTwice` | assets/js/script.js:114 | two clicks on the same header restore the original state |
| `MenuSections.TogglesCommute` | assets/js/script.js:112-114 | sections are independent: clicks on two headers commute |
| `MenuSections.Sections.constructor` | assets/js/script.js:111-116 | sections start as the markup has them; only sections with a header get a handler |
| `MenuSections.Sections.HeaderClick` | assets/js/script.js:113-114 | the collapsed flags become `Toggled` of the old ones for a section with a header, and are unchanged otherwise |
| `Navigation.DropdownAfter` | assets/js/script.js:18-28 | the toggle flips the dropdown without bubbling, a click inside the menu leaves it, and any other click closes it; the dropdown stays or becomes open only through the toggle or a click inside an open menu |
| `Navigation.OutsideClickCloses` | assets/js/script.js:23-25 | every click off the toggle and the menu, the hamburger included, closes the dropdown |
| `Navigation.Nav.Click` | assets/js/script.js:18-36 | the hamburger flips the hamburger and mobile-nav flags together (their equality is kept), then the click reaches the document; the dropdown becomes `DropdownAfter` |
| `Navigation.MarkedLinks` | script.js:63-68 | after the marking pass a link is marked exactly when it was marked before or matches the current page |
| `Navigation.Nav.MarkActiveLinks` | script.js:62-68 | the link marks become `MarkedLinks` of the old ones: marks are added, never removed |
| `Navigation.Nav.constructor` | script.js:24-68 | `initNav` keeps the dropdown and hamburger state of the markup and runs the marking pass for the location's path |
| `ActiveLink.LastSegment` | script.js:62 | `split('/').pop()`: a suffix of the path with no `/`, either the whole path or preceded by `/` |
| `ActiveLink.LastSegmentUnique` | script.js:62 | those properties hold of exactly one string, so they define `split('/').pop()` |
| `ActiveLink.CurrentPage` | script.js:62 | the page name is the last segment, or `index.html` when that is empty; it is never empty and has no `/` |
| `ActiveLink.IncludesIffOccurs` | script.js:65 | `includes` holds exactly when the pattern occurs at some position of the text |
| `ActiveLink.OccursIncluded` | script.js:65 | an occurrence of the page name at any position makes `includes` true |
| `ActiveLink.SuffixIncluded` | script.js:65 | a text includes each of its suffixes |
| `ActiveLink.ActiveLinkIff` | script.js:64-67 | a link is marked exactly when its `href` is present, non-empty, and has the page name somewhere inside it |
| `ActiveLink.OwnLinkMarked` | script.js:65-66 | the link whose `href` is the page name itself is marked |
| `ActiveLink.PathLinkMarked` | script.js:65-66 | a link whose `href` ends in `/` and the page name is marked |
| `ActiveLink.HomeLinkMarkedOnXPage` | script.js:62-66 | on `/x.html` the `index.html` link is marked as well: substring, not suffix, matching |
| `ActiveLink.DirectoryIsIndex` | script.js:62 | a path ending in `/` is page `index.html`, and the `index.html` link is marked there |
| `ModalController.Modal.constructor` | script.js:161-199 | the auto-open timeout is pending exactly when the overlay exists and `data-page` is `home` |
| `ModalController.Modal.Open` | script.js:169-172 | shows the overlay and hides body overflow together |
| `ModalController.Modal.Close` | script.js:175-178 | hides the overlay and restores body overflow together, from any state (idempotent) |
| `ModalController.Modal.OpenButtonClick` | script.js:180-182 | an open button shows the modal; scrolling is suppressed exactly while it is shown |
| `ModalController.Modal.CloseButtonClick` | script.js:184 | the close button hides the modal when both exist |
| `ModalController.Modal.OverlayClick` | script.js:187-189 | a click closes only when its target is the overlay itself, not content inside the dialog |
| `ModalController.Modal.KeyDown` | script.js:192-194 | Escape closes from any state; other keys change nothing |
| `ModalController.Modal.AutoOpenFires` | script.js:197-199 | the pending auto-open fires once and shows the modal; it never fires again |
| `ScrollReveal.Revealed` | script.js:284-290 | after the callback handles a batch in order, an element is visible exactly when it was before or some entry reported it intersecting |
| `ScrollReveal.Unobserved` | script.js:286-288 | every element reported intersecting stops being observed; no element is observed again |
| `ScrollReveal.NonIntersectingNoop` | script.js:286 | entries that do not intersect change nothing |
| `ScrollReveal.RevealOneShot` | script.js:286-288 | `visible` is never removed by a later batch, and handling a batch again changes nothing |
| `ScrollReveal.Reveal.constructor` | script.js:278-297 | no elements: nothing happens and no observer is created; with an observer every element is observed; without one every element becomes visible at once |
| `ScrollReveal.Reveal.Notify` | script.js:284-291 | the flags become `Revealed` and `Unobserved` of the old ones for the batch |

## Findings

| source | as written | input that shows it | evidently intended | confidence | as-written member | corrected member |
|---|---|---|---|---|---|---|
| script.js:129 | `mouseleave` (here and at assets/js/script.js:89) calls `startAutoplay`, which overwrites the stored handle without clearing it. An arrow click while hovering (script.js:125) has already restarted autoplay, so leaving starts a second interval. Later hovers clear only the newer interval. | mouseenter, click on the next arrow, mouseleave, mouseenter: interval 1 keeps advancing the slides under the pointer, and nothing can ever clear it | hovering pauses autoplay, and at most one autoplay interval runs at a time (stop before start, as the manual handlers do) | high (not executed) | `CarouselController.HoverClickLeave` | `CarouselController.Carousel.MouseLeaveRestart` |

## Left out

- DOM lookup and event registration (`$`, `$$`, `addEventListener`, `createElement`, `setAttribute`, `tabindex`): a handler is a method called directly. An optional element that the code checks for (a dots container, an arrow button, the modal's overlay and buttons, an FAQ question, a section header, the dropdown toggle) is a constructor flag whose handler then does nothing.
- A `.carousel-wrap` without a `.carousel-track`: the code never checks for the track. `$$('.carousel-slide', track)` then searches the whole document (script.js:79, script.js:18), and the first `goTo(0)` (script.js:154) throws a TypeError at `track.style` (script.js:104). The exception skips `startAutoplay` (script.js:155) and ends the `DOMContentLoaded` callback, so `initModal` through `initStaggerDelay` (script.js:317-322; assets/js/script.js:4-7 in the reduced copy) never run. The handlers registered at script.js:124-151 stay: each later arrow, key or swipe stops autoplay, changes `current` and throws before the dots are updated. `CarouselController.Carousel.constructor` always has a track, so the model does not capture this failure or the setup it aborts.
- Real time: the 4500 ms interval, the 3000 ms auto-open delay and timer scheduling. An interval is an id in the carousel's set of live intervals (`Tick` is one firing). The auto-open timeout is a pending flag (`AutoOpenFires`).
- The track's CSS transform string: only the offset `current * 100` is kept, as a number.
- `initStaggerDelay` (script.js:303-309, assets/js/script.js:149-155) and the 0.12 reveal threshold: floating point and purely cosmetic.
- `initContactForm` (script.js:247-273): a timer-driven swap of a button's label and `disabled` flag with no logic to state. Note that it checks `success` for null at script.js:265 but not before `success.classList` at script.js:269, so a page without `#formSuccess` throws in the second timeout.
- When the intersection observer delivers entries, and which ones, is the browser's decision. A batch is a parameter of `Notify`, whose targets are elements the observer was given.
- Touch coordinates (`clientX`) are fractional in browsers. The model takes integers, which leaves the 40-unit threshold unchanged.
- Clicks handled by other controllers (an FAQ question, a modal button) also reach the document and close the dropdown. `Navigation.Nav.Click` models this as target `Elsewhere`. The controllers are separate classes, so no click method of one calls into another.
- The `DOMContentLoaded` entry points that call each controller's setup once: each class's constructor is that setup.
