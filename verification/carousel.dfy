/**
  The index state machine of the hero carousel. The only state is the index
  of the slide on screen; `n` is the (fixed, positive) number of slides.
  Indices are plain integers so that the transitions are total, exactly as the
  component's update functions are; `Valid` is the invariant the component keeps.
*/
module Carousel {

  /** `i` names one of the `n` slides. */
  predicate Valid(n: nat, i: int) {
    0 <= i < n
  }

  /**
    JavaScript's `%` on integers: the quotient truncates toward zero, so a
    non-zero remainder takes the sign of the dividend (unlike Dafny's `%`).
  */
  function JsRem(a: int, b: int): (r: int)
    requires b > 0
    ensures a >= 0 ==> 0 <= r < b
    ensures a < 0 ==> -b < r <= 0
    ensures (a - r) % b == 0
  {
    if a >= 0 then
      ModUnique(b, a - a % b, a / b, 0);
      a % b
    else
      ModUnique(b, a + (-a) % b, -((-a) / b), 0);
      -((-a) % b)
  }

  /** The index a freshly mounted carousel starts at: the first slide. */
  function Initial(n: nat): (r: int)
    ensures r == 0
    ensures n > 0 ==> Valid(n, r)
  {
    0
  }

  /** The "next" arrow: step forward, wrapping from the last slide to the first. */
  function Next(n: nat, i: int): (r: int)
    requires n > 0
    ensures Valid(n, i) ==> Valid(n, r)
    ensures i == n - 1 ==> r == 0
    ensures 0 <= i < n - 1 ==> r == i + 1
  {
    JsRem(i + 1, n)
  }

  /**
    The auto-advance timer's update. The component writes it as its own closure;
    its effect on the index is exactly that of the "next" arrow.
  */
  function Tick(n: nat, i: int): (r: int)
    requires n > 0
    ensures r == Next(n, i)
  {
    JsRem(i + 1, n)
  }

  /** The "previous" arrow: step back, wrapping from the first slide to the last. */
  function Prev(n: nat, i: int): (r: int)
    ensures Valid(n, i) ==> Valid(n, r)
    ensures i == 0 ==> r == n - 1
    ensures 0 < i < n ==> r == i - 1
  {
    if i == 0 then n - 1 else i - 1
  }

  /**
    Clicking indicator dot `k`. Dots exist only for the slides of the list,
    so `k` is always a valid index; the prior index `i` plays no part.
  */
  function Jump(n: nat, i: int, k: int): (r: int)
    requires Valid(n, k)
    ensures Valid(n, r)
    ensures r == k
  {
    k
  }

  /** The index after `k` timer ticks (`k` five-second intervals) from `i`. */
  function Ticks(n: nat, i: int, k: nat): (r: int)
    requires n > 0
    ensures Valid(n, i) ==> Valid(n, r)
    decreases k
  {
    if k == 0 then i else Tick(n, Ticks(n, i, k - 1))
  }

  /** On valid indices, JavaScript's truncating remainder is ordinary modular successor. */
  lemma NextIsModularSuccessor(n: nat, i: int)
    requires n > 0
    requires Valid(n, i)
    ensures Next(n, i) == (i + 1) % n
  {
  }

  /**
    On valid indices the conditional decrement equals the modular form
    `(i - 1 + n) % n`.
  */
  lemma PrevIsModularPredecessor(n: nat, i: int)
    requires Valid(n, i)
    ensures Prev(n, i) == (i - 1 + n) % n
  {
  }

  /** "previous" undoes "next". */
  lemma PrevUndoesNext(n: nat, i: int)
    requires n > 0
    requires Valid(n, i)
    ensures Prev(n, Next(n, i)) == i
  {
  }

  /** "next" undoes "previous". */
  lemma NextUndoesPrev(n: nat, i: int)
    requires Valid(n, i)
    ensures Next(n, Prev(n, i)) == i
  {
  }

  /** A dot click lands on the same slide whatever slide was showing. */
  lemma JumpForgetsPrior(n: nat, a: int, b: int, k: int)
    requires Valid(n, k)
    ensures Jump(n, a, k) == Jump(n, b, k) == k
  {
  }

  /** Successor modulo `n` of a residue is the residue of the successor. */
  lemma ModSuccessor(n: nat, a: nat)
    requires n > 0
    ensures Next(n, a % n) == (a + 1) % n
  {
    var q, m := a / n, a % n;
    assert a == q * n + m;
    if m + 1 < n {
      assert a + 1 == q * n + (m + 1);
      ModUnique(n, a + 1, q, m + 1);
    } else {
      assert a + 1 == (q + 1) * n + 0;
      ModUnique(n, a + 1, q + 1, 0);
    }
  }

  /** The remainder is determined by any quotient/remainder decomposition. */
  lemma ModUnique(n: nat, a: int, q: int, m: int)
    requires n > 0
    requires a == q * n + m
    requires 0 <= m < n
    ensures a % n == m
  {
    var q', m' := a / n, a % n;
    assert (q - q') * n == m' - m;
    if q > q' {
      MulAtLeast(q - q', n);
    } else if q < q' {
      MulAtLeast(q' - q, n);
    }
  }

  /** A positive multiple of `n` is at least `n`. */
  lemma MulAtLeast(d: int, n: nat)
    requires d >= 1
    ensures d * n >= n
  {
  }

  /** After `k` ticks from valid `i` the carousel shows slide `(i + k) mod n`. */
  lemma {:induction false} TicksAdvanceModN(n: nat, i: int, k: nat)
    requires n > 0
    requires Valid(n, i)
    ensures Ticks(n, i, k) == (i + k) % n
  {
    if k == 0 {
      ModUnique(n, i, 0, i);
    } else {
      TicksAdvanceModN(n, i, k - 1);
      ModSuccessor(n, i + k - 1);
    }
  }

  /** `n` ticks bring the carousel back to the slide it started on. */
  lemma TicksCycle(n: nat, i: int)
    requires n > 0
    requires Valid(n, i)
    ensures Ticks(n, i, n) == i
  {
    TicksAdvanceModN(n, i, n);
    ModUnique(n, i + n, 1, i);
  }
}
