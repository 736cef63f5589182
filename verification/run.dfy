/**
  The carousel driven by a sequence of user and timer events, as the
  component sees them while mounted.
*/
module CarouselRun {
  import opened Carousel
  import Slides

  /** What can change the index: a timer tick, an arrow press, or a dot click. */
  datatype Event = TimerTick | NextArrow | PrevArrow | DotClick(k: int)

  /** A dot click can only name a dot that is on the page. */
  predicate Addressable(n: nat, e: Event) {
    e.DotClick? ==> Valid(n, e.k)
  }

  /** Every event of `es` can occur on a carousel of `n` slides. */
  predicate AllAddressable(n: nat, es: seq<Event>) {
    forall j :: 0 <= j < |es| ==> Addressable(n, es[j])
  }

  /** The index after one event. */
  function Step(n: nat, i: int, e: Event): (r: int)
    requires n > 0
    requires Addressable(n, e)
    ensures Valid(n, i) ==> Valid(n, r)
    ensures e.DotClick? ==> r == e.k
  {
    match e
    case TimerTick => Tick(n, i)
    case NextArrow => Next(n, i)
    case PrevArrow => Prev(n, i)
    case DotClick(k) => Jump(n, i, k)
  }

  /** The index after the events of `es`, in order, starting from `i`. */
  function Run(n: nat, i: int, es: seq<Event>): (r: int)
    requires n > 0
    requires AllAddressable(n, es)
    ensures Valid(n, i) ==> Valid(n, r)
    decreases |es|
  {
    if |es| == 0 then i
    else Step(n, Run(n, i, es[..|es| - 1]), es[|es| - 1])
  }

  /** Every index a mounted carousel can reach names a slide. */
  lemma ReachableIsValid(n: nat, es: seq<Event>)
    requires n > 0
    requires AllAddressable(n, es)
    ensures Valid(n, Run(n, Initial(n), es))
  {
  }

  /** Left alone, the carousel advances one slide per timer tick. */
  lemma {:induction false} IdleRunIsTicks(n: nat, i: int, k: nat)
    requires n > 0
    ensures AllAddressable(n, seq(k, _ => TimerTick))
    ensures Run(n, i, seq(k, _ => TimerTick)) == Ticks(n, i, k)
  {
    var es := seq(k, _ => TimerTick);
    if k > 0 {
      assert es[..k - 1] == seq(k - 1, _ => TimerTick);
      IdleRunIsTicks(n, i, k - 1);
    }
  }

  /** The last dot click of a run decides the index, whatever came before it. */
  lemma {:induction false} LastClickWins(n: nat, i: int, es: seq<Event>, k: int)
    requires n > 0
    requires AllAddressable(n, es)
    requires Valid(n, k)
    ensures AllAddressable(n, es + [DotClick(k)])
    ensures Run(n, i, es + [DotClick(k)]) == k
  {
    assert (es + [DotClick(k)])[..|es|] == es;
  }

  /**
    The landing page's own carousel of three slides: it starts on the first
    slide, wraps both ways, and is back where it started after three ticks.
  */
  lemma LandingPageCarousel(es: seq<Event>)
    requires AllAddressable(Slides.SlideCount(), es)
    ensures Valid(Slides.SlideCount(), Run(Slides.SlideCount(), Initial(Slides.SlideCount()), es))
    ensures Next(Slides.SlideCount(), 2) == 0
    ensures Prev(Slides.SlideCount(), 0) == 2
    ensures Ticks(Slides.SlideCount(), 0, 3) == 0
  {
    ReachableIsValid(Slides.SlideCount(), es);
    TicksCycle(3, 0);
  }
}
