/**
  The two views the carousel derives from its index: where each slide sits
  (on screen, parked to the left, parked to the right) and which indicator
  dot is highlighted.
*/
module CarouselView {
  import opened Carousel

  /** Placement of one slide relative to the slide on screen. */
  datatype Position = Current | Left | Right

  /** The placement of slide `i` when slide `c` is showing. */
  function PositionOf(i: int, c: int): (p: Position)
    ensures p == Current <==> i == c
    ensures p == Left <==> i < c
    ensures p == Right <==> c < i
  {
    if i == c then Current else if i < c then Left else Right
  }

  /** The placement of every slide of the list, in list order. */
  function SlidePositions(n: nat, c: int): (r: seq<Position>)
    ensures |r| == n
    ensures forall i :: 0 <= i < n ==> (r[i] == Current <==> i == c)
    ensures forall i :: 0 <= i < n ==> (r[i] == Left <==> i < c)
  {
    seq(n, i => PositionOf(i, c))
  }

  /** Whether indicator dot `i` is highlighted when slide `c` is showing. */
  predicate DotActive(i: int, c: int) {
    c == i
  }

  /** The highlight state of every indicator dot, in list order. */
  function Indicators(n: nat, c: int): (r: seq<bool>)
    ensures |r| == n
    ensures forall i :: 0 <= i < n ==> (r[i] <==> i == c)
  {
    seq(n, i => DotActive(i, c))
  }

  /** A value that occurs at exactly one index of `s` occurs once in its multiset. */
  lemma {:induction false} OccursOnce<T>(s: seq<T>, x: T, c: int)
    requires 0 <= c < |s|
    requires forall j :: 0 <= j < |s| ==> (s[j] == x <==> j == c)
    ensures multiset(s)[x] == 1
  {
    assert s == [s[0]] + s[1..];
    if c == 0 {
      OccursNever(s[1..], x);
    } else {
      OccursOnce(s[1..], x, c - 1);
    }
  }

  /** A value that occurs at no index of `s` is absent from its multiset. */
  lemma {:induction false} OccursNever<T>(s: seq<T>, x: T)
    requires forall j :: 0 <= j < |s| ==> s[j] != x
    ensures multiset(s)[x] == 0
  {
    if |s| > 0 {
      assert s == [s[0]] + s[1..];
      OccursNever(s[1..], x);
    }
  }

  /**
    For a valid index exactly one slide is on screen, namely slide `c`; every
    earlier slide is parked left and every later one parked right.
  */
  lemma ExactlyOneCurrent(n: nat, c: int)
    requires Valid(n, c)
    ensures |SlidePositions(n, c)| == n
    ensures multiset(SlidePositions(n, c))[Current] == 1
    ensures SlidePositions(n, c)[c] == Current
    ensures forall i :: 0 <= i < c ==> SlidePositions(n, c)[i] == Left
    ensures forall i :: c < i < n ==> SlidePositions(n, c)[i] == Right
  {
    OccursOnce(SlidePositions(n, c), Current, c);
  }

  /** The slide strip is: `c` slides to the left, the current one, the rest to the right. */
  lemma SlideLayout(n: nat, c: int)
    requires Valid(n, c)
    ensures SlidePositions(n, c)
         == seq(c, _ => Left) + [Current] + seq(n - c - 1, _ => Right)
  {
  }

  /** For a valid index exactly one dot is highlighted, and it is dot `c`. */
  lemma ExactlyOneActiveDot(n: nat, c: int)
    requires Valid(n, c)
    ensures |Indicators(n, c)| == n
    ensures multiset(Indicators(n, c))[true] == 1
    ensures forall i :: 0 <= i < n ==> (Indicators(n, c)[i] <==> i == c)
  {
    OccursOnce(Indicators(n, c), true, c);
  }

  /** After clicking dot `k`, dot `k` is the highlighted one and slide `k` is on screen. */
  lemma ClickedDotShowsItsSlide(n: nat, i: int, k: int)
    requires Valid(n, k)
    ensures Indicators(n, Jump(n, i, k))[k]
    ensures SlidePositions(n, Jump(n, i, k))[k] == Current
  {
  }
}
