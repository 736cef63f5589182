# Rotaract DYPCOE landing page: the hero carousel

The landing page's only stateful logic is the auto-advancing image carousel
`CustomCarousel`. It holds one integer, the index of the slide on screen, into
a fixed list of slides. The index starts at 0. It moves forward on every
five-second timer tick and on the "next" arrow, backward on the "previous"
arrow, and to slide `k` when indicator dot `k` is clicked. From that index the
component derives where each slide is drawn (on screen, parked left, parked
right) and which indicator dot is highlighted.

The model works over any slide count `n > 0`. It also instantiates `n = 3`,
the page's own list.

- `slides.dfy`, module `Slides`: the slide record and the page's three slides.
- `carousel.dfy`, module `Carousel`: the validity invariant and the transitions.
  These are the initial index, next, the timer tick, previous and the dot jump.
  The module also defines repeated ticks and the lemmas relating them
  (inverses, wrap-around, the `n`-tick cycle).
- `view.dfy`, module `CarouselView`: slide placement as `Current | Left | Right`,
  the indicator highlights, and the "exactly one" lemmas.
- `run.dfy`, module `CarouselRun`: the component driven by a sequence of timer,
  arrow and dot events, and the reachability invariant.

The forward step uses JavaScript's `%`, which truncates toward zero. It is
modelled by `Carousel.JsRem`, not by Dafny's Euclidean `%`. On valid indices
the two agree (`Carousel.NextIsModularSuccessor`). The backward step is the
component's conditional, "0 goes to `n - 1`, otherwise decrement". It is not the
usual modular formula `(i - 1 + n) mod n`. The two agree on every valid index (`Carousel.PrevIsModularPredecessor`)
and differ only on indices the component never reaches (for example, -1).
The model follows the code.

## Model

| member | source | states |
|---|---|---|
| Slides.SlideCount | app/page.js:43-59 | the slide list is fixed at three entries, so every index operation works modulo a positive count |
| Carousel.JsRem | app/page.js:72 | JavaScript's `%` keeps the dividend's sign: the result is in `[0, b)` for a non-negative dividend, in `(-b, 0]` for a negative one, and congruent to the dividend modulo `b` |
| Carousel.Initial | app/page.js:62 | the carousel starts at index 0, which names a slide whenever the list is non-empty |
| Carousel.Next | app/page.js:71-73 | "next" keeps the index valid, wraps the last slide to slide 0, and otherwise moves to the following slide |
| Carousel.Tick | app/page.js:64-67 | the timer's update is exactly the "next" transition |
| Carousel.Prev | app/page.js:75-79 | "previous" keeps the index valid, wraps slide 0 to the last slide, and otherwise moves to the preceding slide |
| Carousel.Jump | app/page.js:120-123 | a dot click can only name an existing dot, and it sets the index to that dot's slide, which is valid |
| Carousel.Ticks | app/page.js:64-67 | any number of timer ticks from a valid index leaves the index valid |
| Carousel.NextIsModularSuccessor | app/page.js:72 | on valid indices the truncating remainder gives the ordinary successor modulo `n` |
| Carousel.PrevIsModularPredecessor | app/page.js:76-78 | on valid indices the conditional decrement equals `(i - 1 + n) mod n` |
| Carousel.PrevUndoesNext | app/page.js:71-79 | "previous" after "next" returns to the starting slide |
| Carousel.NextUndoesPrev | app/page.js:71-79 | "next" after "previous" returns to the starting slide |
| Carousel.JumpForgetsPrior | app/page.js:123 | a dot click lands on the same slide whatever slide was showing before |
| Carousel.TicksAdvanceModN | app/page.js:64-67 | after `k` ticks from slide `i` the carousel shows slide `(i + k) mod n`, one step per interval |
| Carousel.TicksCycle | app/page.js:64-67 | `n` ticks bring the carousel back to the slide it started on |
| CarouselView.PositionOf | app/page.js:87-93 | a slide is on screen exactly when its index is the current one, parked left exactly when its index is lower, parked right exactly when it is higher |
| CarouselView.SlidePositions | app/page.js:84-93 | the slide strip has one placement per slide; slide `i` is on screen exactly when `i` is the current index and parked left exactly when `i` is lower |
| CarouselView.Indicators | app/page.js:120-128 | one indicator dot per slide, built from the `DotActive` test; dot `i` is highlighted exactly when `i` is the current index |
| CarouselView.ExactlyOneCurrent | app/page.js:84-93 | for a valid index exactly one slide of the list is on screen, and it is that slide; all earlier slides are left and all later ones right |
| CarouselView.SlideLayout | app/page.js:84-93 | the strip of placements is `c` lefts, one current, then `n - c - 1` rights |
| CarouselView.ExactlyOneActiveDot | app/page.js:120-128 | for a valid index exactly one indicator dot is highlighted, and it is the dot of the current slide |
| CarouselView.ClickedDotShowsItsSlide | app/page.js:120-128 | after clicking dot `k`, dot `k` is highlighted and slide `k` is on screen |
| CarouselRun.Step | app/page.js:62-123 | each event (tick, arrows, dot click) keeps the index valid, and a dot click sets it to the clicked dot |
| CarouselRun.Run | app/page.js:61-151 | any sequence of events from a valid index leaves the index valid |
| CarouselRun.ReachableIsValid | app/page.js:61-123 | every index reachable from the initial state names a slide |
| CarouselRun.IdleRunIsTicks | app/page.js:64-69 | with no user input, the index after `k` timer events is the index after `k` ticks |
| CarouselRun.LastClickWins | app/page.js:120-123 | whatever events came before, a final dot click `k` leaves the carousel on slide `k` |
| CarouselRun.LandingPageCarousel | app/page.js:43-79 | for the page's three slides every reachable index is valid, "next" wraps 2 to 0, "previous" wraps 0 to 2, and three ticks return to slide 0 |

## Left out

- The React lifecycle: `useEffect`, `setInterval` and `clearInterval` (app/page.js:64-69). Only the tick's effect on the index is modelled. The five-second period is represented by counting ticks, and unmounting is not modelled, because it concerns timing and disposal, not the index.
- Concurrency between the timer callback and user clicks. The event sequence of `CarouselRun.Run` stands for whatever interleaving the single-threaded event loop produces.
- JavaScript numbers are IEEE doubles. Indices here are unbounded integers, and that is exact for any realistic slide count.
- Rendering: the `next/image` properties, the Tailwind class strings (modelled as the `Position` enumeration and a highlight flag), fonts, and the about and footer markup.
- The framer-motion animation variants (app/page.js:154-222). These are floating-point durations and easing curves for an external animation library.
- `Navbar` and the dynamically imported `MarathonMap`. These are external components that are not part of this model, and the map is never rendered on this page.
- The outbound Instagram link, which is static markup.
