# Landing-page interaction core, modelled in Dafny

`scripts.js` drives the product landing page for the "Smile We Love" cooler bag.
Under its DOM calls sit a few small state machines and pure helpers. This
project models them with the document replaced by index-aligned arrays and
sequences. Element `i` of one array stands for element `i` of the matching DOM list.

- **FAQ accordion** (`faq.dfy`). `FaqAccordion` holds `answerOpen[i]` (answer `i`
  has display `block`) and `questionActive[i]` (question `i` has the class `active`).
  A click closes everything, then opens the clicked answer if it had been closed.
  Enter and Space act as a click. The invariant "at most one answer open" is proved
  for one click and for any sequence of clicks, keys and Escapes.
- **Size selector** (`sizes.dfy`). `SizeSelector` holds the options' `active` marks
  and the CTA buttons as `(text, href)` pairs. A click makes exactly one option
  active. It rewrites every CTA to the S/13,900원 or L/18,500원 label and to the
  `#order-s` or `#order-l` anchor. Arrow-key focus movement is the pure `NextFocus`.
- **Document keydown** (`page.dfy`). `PageState.KeyDown` is the one handler that
  reaches both components. Escape closes the FAQ. The arrow keys move focus among
  the size options and never change the selection.
- **Scroll depth** (`scroll_depth.dfy`). `ScrollDepthTracker` holds the high-water
  mark `maxScrollDepth` and the log of tracked `scroll_depth` events. The
  depth comes in as an integer percentage.
- **Scroll reveal and lazy images** (`reveal.dfy`). Each target is revealed once and
  then unobserved, and grid items are staggered by 100 ms per sibling. An image's
  `data-src` becomes its `src` at most once.
- **Anchors and the floating button** (`layout.dfy`). This covers the smooth-scroll
  target position and the skip rule for `#order-` links. It also covers when the
  floating order button is visible.
- **Cart and wishlist** (`cart.dfy`). It models the product data a CTA click builds
  and its fallbacks, and the `add_to_cart` toast and event. `Wishlist.Toggle` removes
  the first occurrence of an id or appends it, and returns whether the id was added.
- **Testimonials** (`testimonials.dfy`). Three cards are shown in a circular window
  over more than three cards. The window moves forward one card per tick of the timer.
- **Logo easter egg** (`easter_egg.dfy`). Five clicks in a row fire the easter egg and
  reset the count. The two-second reset is the explicit `Timeout` event.
- **Form validation** (`forms.dfy`). `ValidateForm` loops over the required fields'
  values. It marks a field with an error exactly when its trimmed value is empty.
- **Shared pieces** (`common.dfy`, `text.dfy`, `effects.dfy`):
  - counting marks;
  - the digit extraction and `parseInt` behind every price read;
  - `ko-KR` grouping and the `원` suffix;
  - JavaScript's `trim`;
  - toasts, tracked events and the toast colour.

Toasts and tracked events are recorded as values appended to logs (`Effects.Toast`,
`Effects.Event`). Timers, DOM geometry and user input are explicit events or
parameters.

Some behaviours of the code are worth stating outright:

- Scroll milestones are not deduplicated (scripts.js:354-366). Each rise of the
  high-water mark inside a bucket emits that bucket's event again.
  `ScrollDepth.SameBucketReportedTwice` proves this for the depths 30 and 40.
- `toggleWishlist` returns whether the id was added (scripts.js:651, as its own
  comment says). When the stored list holds duplicates, that is not whether the id
  is present afterwards. `Cart.ToggleKeepsNoDuplicates` proves the two agree on a
  duplicate-free list. `Cart.DuplicateSurvivesRemoval` shows a list where they differ.
- Index 0 maps to S and every other index to L (scripts.js:73-75). The model keeps
  any number of options.
- A CTA click never navigates to its `#order-` anchor. The smooth-scroll handler
  returns early for those links (scripts.js:111-113). The CTA's own listener
  (scripts.js:605-607), attached when the script runs and so before the
  smooth-scroll listener that waits for DOMContentLoaded (scripts.js:2-12), prevents
  the default and starts the cart flow.

## Model

| member | source | states |
|---|---|---|
| `Faq.AfterClick` | scripts.js:23-34 | after a click on question i, answer i is open iff it was closed before, and every other answer is closed |
| `Faq.ClickLeavesAtMostOneOpen` | scripts.js:25-34 | whatever was open before, a click leaves at most one answer open (counted) |
| `Faq.ClickTwiceClosesAll` | scripts.js:23-33 | two clicks on a closed question close every answer |
| `Faq.RunKeepsAtMostOneOpen` | scripts.js:20-52 | from a state with at most one answer open, any sequence of clicks, Enter/Space keys and Escapes keeps at most one answer open |
| `Faq.FaqAccordion.CloseAll` | scripts.js:289-294 | Escape hides every answer and clears every question's active mark, whatever the prior state |
| `Faq.FaqAccordion.Click` | scripts.js:21-44 | the answers become `AfterClick` of the old ones, and each question's active mark equals its answer's open state |
| `Faq.FaqAccordion.QuestionKeyDown` | scripts.js:47-52 | Enter or Space on a question is a click on it; other keys change nothing |
| `Faq.FaqAccordion.constructor` | scripts.js:17-23 | n question/answer pairs, every answer hidden (which the click handler reads as closed) and no question marked |
| `Sizes.SizeSelector.Click` | scripts.js:64-80 | exactly the clicked option is active; every CTA becomes `CtaFor(index)`; clicking the already selected option changes nothing |
| `Sizes.SizeSelector.OptionKeyDown` | scripts.js:90-95 | Enter or Space on an option selects it; other keys change nothing |
| `Sizes.SelectionIsExclusive` | scripts.js:66-70 | after a selection, the number of active options is exactly one |
| `Sizes.CtaForSpelledOut` | scripts.js:73-79 | CTA text `💛 S사이즈 주문하기 (13,900원)` with href `#order-s` iff index 0, otherwise `💛 L사이즈 주문하기 (18,500원)` with `#order-l` |
| `Sizes.PriceTextIsFormatted` | scripts.js:75 | the hard-coded price texts are 13900 and 18500 in the page's own `ko-KR` won format |
| `Sizes.CtaAdvertisesPrice` | scripts.js:78 | the digits of every rewritten CTA text read back as the selected size's price |
| `Sizes.NextFocus` | scripts.js:304-308 | the next focused option is in [0, n): Right is +1 mod n, Left is −1 mod n |
| `Sizes.NextFocusWraps` | scripts.js:305-307 | Left from the first option goes to the last; Right from the last goes to the first |
| `Sizes.NextFocusInverse` | scripts.js:304-308 | Left undoes Right and Right undoes Left |
| `Page.ArrowOf` | scripts.js:297 | only `ArrowLeft` and `ArrowRight` are arrows, and each maps to its direction |
| `Page.FocusAfterKey` | scripts.js:297-312 | an arrow on size option i moves focus to `NextFocus(i, n, arrow)`, which is always an option; any other key, or focus elsewhere, leaves focus where it is |
| `Page.PageState.KeyDown` | scripts.js:287-314 | Escape closes every answer and clears every mark; other keys leave the FAQ alone; focus becomes `FocusAfterKey`; the active option and the CTAs are unchanged |
| `Page.CtaLinksAreLeftAlone` | scripts.js:111-113 | every CTA href the selector writes is an `#order-` link, so the smooth-scroll handler returns without preventing the default or scrolling (the CTA's own listener at scripts.js:605-607 prevents the navigation) |
| `Layout.AnchorClick` | scripts.js:108-126 | the handler returns early for `#order-` links and leaves their default alone; otherwise a missing target does nothing, and a found one scrolls to its top minus the header height (0 without a header) minus 20 |
| `Layout.ScrollStopsAboveTarget` | scripts.js:119-120 | without a header the scroll stops 20px above the target; a header only moves it further up |
| `Layout.FabVisibility` | scripts.js:529-541 | the button is visible iff the hero and CTA sections exist and scrollY is strictly between the hero's bottom and the CTA top minus the viewport height; without them the style is untouched |
| `Layout.FabShownOnInterval` | scripts.js:534 | the visible positions form an interval, and both of its ends are hidden |
| `ScrollDepth.MilestoneOf` | scripts.js:358-366 | the label is the largest of 25/50/75/90 that the depth reaches; there is none below 25 |
| `ScrollDepth.Step` | scripts.js:354-367 | the mark never decreases; an event is appended iff the depth strictly exceeds the old mark and is at least 25; that event carries the new mark's bucket label |
| `ScrollDepth.StepKeepsConsistent` | scripts.js:354-366 | one scroll keeps the logged milestones non-decreasing and at most the mark's bucket |
| `ScrollDepth.RunIsMonotone` | scripts.js:350-368 | over any sequence of scrolls the mark ends at or above every depth seen, the log only grows, and the reported milestones never go down |
| `ScrollDepth.SameBucketReportedTwice` | scripts.js:354-359 | with no deduplication, depths 30 then 40 report `25%` twice |
| `ScrollDepth.NoEventWithoutNewMaximum` | scripts.js:354 | a depth at or below the mark changes nothing |
| `ScrollDepth.ScrollDepthTracker.OnScroll` | scripts.js:351-368 | the tracker's state becomes `Step` of the old state and keeps the log consistent |
| `ScrollDepth.ScrollDepthTracker.constructor` | scripts.js:350 | the high-water mark starts at 0 with nothing tracked, a consistent state |
| `Reveal.RevealTiming` | scripts.js:144-159 | grid items are revealed after 100 × their sibling index ms; every other target is revealed immediately |
| `Reveal.StaggerIsIncreasing` | scripts.js:149-155 | a later grid sibling is revealed strictly later |
| `Reveal.RevealController.constructor` | scripts.js:168-175 | every target starts observed and not yet visible |
| `Reveal.RevealController.Intersect` | scripts.js:139-163 | the target becomes visible and is unobserved; its effect fires only if it was still observed; no target ever becomes hidden again or fires twice |
| `Reveal.Observe` | scripts.js:447-449 | exactly the images with a `data-src` attribute are observed; their `src` and `data-src` are left as they were |
| `Reveal.LazyIntersect` | scripts.js:436-442 | a non-empty `data-src` becomes the `src`, and the attribute and the observation are dropped; otherwise nothing changes |
| `Reveal.LazyIntersectIdempotent` | scripts.js:438-441 | a second intersection changes nothing |
| `Reveal.LazyLoadShowsDataSrc` | scripts.js:438-449 | an image with a non-empty `data-src` ends up showing it and is no longer observed |
| `Cart.TextOr` | scripts.js:610-611 | a present non-empty text is returned as is; a missing element or an empty text gives the fallback |
| `Cart.ProductForCta` | scripts.js:609-618 | the size is the active option's `strong` text or `S사이즈`; the price is `parseInt` of its price text or of `13,900원`; the id is `smile-cooler-` plus the lower-cased size; the name is fixed |
| `Cart.AddToCartOutcome` | scripts.js:551-563 | a success toast and an `add_to_cart` event that carries the product's id, name and size when non-empty, and otherwise `smile-cooler-bag`, `Smile We Love 보냉백` and `S`, and its price when positive (13900 for NaN or 0) |
| `Cart.OrderTracksShownPrice` | scripts.js:609-626 | for every positive price shown in won format and every non-empty size text, a CTA click tracks exactly that size, its lower-cased id and that price |
| `Cart.LargeOrderTracksItsPrice` | scripts.js:609-618 | with L active and its price shown as 18,500원, the tracked event has price 18500 and the option's size text |
| `Cart.DefaultOrderIsSmall` | scripts.js:610-611 | with no active option the size is `S사이즈` and the price 13900 |
| `Cart.ZeroPriceFallsBack` | scripts.js:562 | a parsed price of 0 is reported as 13900 |
| `Cart.IndexOf` | scripts.js:634 | returns −1 iff the id is absent; otherwise the position of its first occurrence |
| `Cart.Toggled` | scripts.js:634-641 | an absent id is appended; a present one makes the list one shorter |
| `Cart.ToggleRemovesFirstOccurrence` | scripts.js:636-637 | removal splices out exactly the first occurrence: one copy fewer, the rest in order |
| `Cart.ToggleTwiceRestores` | scripts.js:632-644 | from a list without the id, two toggles restore the list exactly |
| `Cart.ToggleKeepsNoDuplicates` | scripts.js:632-651 | a duplicate-free list stays duplicate-free, and then the id is present afterwards iff it was absent before |
| `Cart.DuplicateSurvivesRemoval` | scripts.js:636-637 | with the id stored twice, a removal leaves one copy |
| `Cart.Wishlist.Toggle` | scripts.js:632-652 | returns true iff the id was absent; the stored list becomes `Toggled`; it logs the add or remove toast and a `wishlist_toggle` event with the matching action |
| `Testimonials.WindowHasThreeCards` | scripts.js:658-660 | with more than three cards, the window holds exactly three distinct cards, all in range |
| `Testimonials.WindowSlides` | scripts.js:671-675 | one tick drops the first card of the window and adds the card after its last one |
| `Testimonials.TickShowsNextWindow` | scripts.js:671-675 | hiding the window's first card and displaying the card after its last one turns the display of one window into exactly the display of the next |
| `Testimonials.DisplayedAreTheWindow` | scripts.js:660-675 | the displayed cards are exactly `current`, `current+1` and `current+2` mod n, three in all |
| `Testimonials.TestimonialRotator.constructor` | scripts.js:656-667 | with more than three cards only cards 0..2 stay displayed; otherwise all are displayed and nothing rotates |
| `Testimonials.TestimonialRotator.Tick` | scripts.js:670-676 | `current` advances by one mod n; exactly the window's three cards are displayed |
| `EasterEgg.ClickStep` | scripts.js:738-753 | a click adds one to the count, except on the fifth click, which fires and resets the count to 0 |
| `EasterEgg.ClicksCountModuloFive` | scripts.js:737-755 | k uninterrupted clicks fire (count + k) div 5 times and leave (count + k) mod 5 |
| `EasterEgg.LogoEasterEgg.Click` | scripts.js:737-755 | the count follows `ClickStep`, the reset timer is armed, and the hidden-feature toast is logged exactly when the egg fires |
| `EasterEgg.LogoEasterEgg.Timeout` | scripts.js:741-743 | a pending reset sets the count to 0 |
| `EasterEgg.LogoEasterEgg.constructor` | scripts.js:733-734 | the count starts at 0, no reset timer is pending and no toast has been shown |
| `Forms.ValidateForm` | scripts.js:415-429 | returns true iff no required value trims to empty; each field is marked iff its trimmed value is empty |
| `Text.DigitsOnly` | scripts.js:465 | the result holds only digits and is no longer than the text |
| `Text.PriceValue` | scripts.js:617 | NaN exactly when the text has no digit |
| `Text.FormatWon` | scripts.js:477 | the displayed price starts with a digit, holds only digits and commas, and ends with `원`; `Text.PriceRoundTrip` reads it back |
| `Text.PriceRoundTrip` | scripts.js:465-477 | parsing a price formatted as `ko-KR` digits plus `원` gives the price back |
| `Text.TrimEmptyIffBlank` | scripts.js:420 | `trim()` gives the empty string iff every character is white space |
| `Text.LowerAscii` | scripts.js:79 | ASCII capitals are lower-cased and every other character is kept |
| `Effects.NotificationColor` | scripts.js:575 | green iff `success`, coral iff `error`, blue for every other type |

## Left out

- DOM plumbing is not modelled: `querySelectorAll`, listener registration, sibling
  pairing (index-aligned arrays instead) and the `tabindex` and `role` attributes.
- No timer or delay is modelled. This covers the accordion's 100 ms `scrollIntoView`,
  the 200 ms scale pulse, the toast's 100/3000/300 ms schedule and the 1000 ms
  simulated cart call. It also covers `debounce`, the five-second `setInterval` and
  the stagger delays themselves. Ticks, timeouts and debounced calls are explicit
  method calls; a stagger is recorded as its delay.
- IntersectionObserver thresholds and root margins are not modelled. Neither is the
  `'IntersectionObserver' in window` check. Only "this element intersected" is an event.
- The price count-up (scripts.js:464-478) is floating point and is not modelled.
  Only its final frame's text is, as `FormatWon`, with `PriceRoundTrip` reading it back.
- The scroll-progress bar (scripts.js:719-723) is not modelled because it is
  floating point.
- The depth computation with `Math.round` (scripts.js:352) is not modelled; the depth
  is an integer input. When the document is exactly as tall as the window, that
  division is by zero and yields NaN or Infinity, which the integer input cannot
  represent.
- `localStorage` and the JSON encoding of the wishlist are not modelled; the stored
  value is the decoded list. A stored value that is not a JSON array is not
  modelled either.
- The `console.log` output is not modelled. The document-level click tracking
  (`cta_click`, `size_selection`, `social_click`, scripts.js:323-347) and `fab_click`
  only log, so they are left out.
- Cosmetic effects are not modelled. These are hover and touch styling, image zoom,
  the image load/error placeholder and the resize font-size tweak. So are the
  confetti pieces and their `Math.random` styling, `performance.now`,
  `showLoadingState`/`hideLoadingState`, the `scrollIntoView`/`scrollTo` calls and
  the exported `window.WiggleWiggle` object.
- Text.LowerAscii: lower-cases ASCII capitals only, whereas `toLowerCase` covers all of
  Unicode. The texts it sees here are `S`, `L` and Hangul size names, and Hangul has
  no case.
- Text.PriceValue: reads digit strings as unbounded naturals. JavaScript numbers lose
  precision above 2^53.
- Layout.AnchorClick: takes the result of `querySelector(href)` as a parameter.
  The exception that an invalid selector (a bare `#`) throws is not modelled.
- Layout.FabVisibility: takes scroll positions as integers, although `scrollY` can
  be fractional.
- Reveal.RevealController.Intersect: takes one intersecting entry at a time. A
  callback's batch of entries is the same calls in order; non-intersecting entries
  do nothing.
