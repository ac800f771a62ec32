/**
 The image slider of the homepage: a cursor (`currentIndex`) into a fixed
 list of n slides. The cursor starts at 0, an interval timer advances it,
 a row of dots sets it directly and two arrow buttons step it backwards and
 forwards. Exactly the slide at the cursor is displayed.

 The slide count n is `images.length`. The transitions are written as the
 component writes them, with no assumption on n; the bounds properties
 therefore carry `InRange(index, n)`, which implies n >= 1.
 */
module Carousel {

  /** The cursor names an existing slide. */
  predicate InRange(index: int, n: nat) {
    0 <= index < n
  }

  /** Cursor after one firing of the auto-advance interval. The wrap test
      compares against n - 1, so with no slides it never wraps. */
  function TickIndex(index: int, n: nat): (r: int)
    ensures InRange(index, n) ==> InRange(r, n) && r == (index + 1) % n
    ensures n == 0 ==> r == index + 1
  {
    if index == n - 1 then 0 else index + 1
  }

  /** Target of the "previous" arrow: the first slide wraps to the last. */
  function PrevIndex(index: int, n: nat): (r: int)
    ensures InRange(index, n) ==> InRange(r, n) && r == (index - 1 + n) % n
    ensures n == 0 ==> r == index - 1
  {
    if index == 0 then n - 1 else index - 1
  }

  /** Target of the "next" arrow: the last slide wraps to the first, and on
      a valid cursor the "previous" arrow undoes it. */
  function NextIndex(index: int, n: nat): (r: int)
    ensures InRange(index, n) ==> InRange(r, n) && PrevIndex(r, n) == index
    ensures n == 0 ==> r == index + 1
  {
    if index == n - 1 then 0 else index + 1
  }

  /** The inputs the slider reacts to. `Dot(target)` is a click on the
      position indicator that passes `target` to `goToSlide`. */
  datatype SliderEvent = Tick | Dot(target: int) | Back | Forward

  /** The indices the dot buttons pass to `goToSlide`: one dot per slide. */
  function DotTargets(n: nat): (r: seq<int>)
    ensures |r| == n
    ensures forall t :: t in r <==> InRange(t, n)
  {
    var r := seq(n, k => k);
    assert forall t | InRange(t, n) :: r[t] == t;
    r
  }

  /** An event the mounted slider can deliver: a dot exists only for a slide. */
  predicate Offered(n: nat, e: SliderEvent) {
    e.Dot? ==> e.target in DotTargets(n)
  }

  /** One transition of the cursor. */
  function Step(index: int, n: nat, e: SliderEvent): (r: int)
    ensures InRange(index, n) && Offered(n, e) ==> InRange(r, n)
    ensures e.Dot? ==> r == e.target
  {
    match e
    case Tick => TickIndex(index, n)
    case Dot(target) => target
    case Back => PrevIndex(index, n)
    case Forward => NextIndex(index, n)
  }

  /** The cursor after a sequence of events, applied in order. */
  function Run(index: int, n: nat, events: seq<SliderEvent>): int
    decreases |events|
  {
    if |events| == 0 then index else Run(Step(index, n, events[0]), n, events[1..])
  }

  /** The cursor after k firings of the interval. */
  function Ticks(index: int, n: nat, k: nat): int
  {
    if k == 0 then index else TickIndex(Ticks(index, n, k - 1), n)
  }

  /** Which slides are displayed: slide k is shown exactly when k is the cursor. */
  function Shown(n: nat, index: int): seq<bool>
  {
    seq(n, k => k == index)
  }

  /** The number of true flags. */
  function CountTrue(flags: seq<bool>): nat
  {
    if |flags| == 0 then 0
    else CountTrue(flags[..|flags| - 1]) + (if flags[|flags| - 1] then 1 else 0)
  }

  /** Tick and the next arrow compute the same cursor. */
  lemma TickIsNext(index: int, n: nat)
    ensures TickIndex(index, n) == NextIndex(index, n)
  {
  }

  /** Starting from a valid cursor, any sequence of ticks, arrows and dot
      clicks keeps the cursor on an existing slide. */
  lemma {:induction false} RunStaysInRange(index: int, n: nat, events: seq<SliderEvent>)
    requires InRange(index, n)
    requires forall k :: 0 <= k < |events| ==> Offered(n, events[k])
    ensures InRange(Run(index, n, events), n)
    decreases |events|
  {
    if |events| > 0 {
      RunStaysInRange(Step(index, n, events[0]), n, events[1..]);
    }
  }

  /** The two arrows undo each other on every valid cursor. */
  lemma PrevNextInverse(index: int, n: nat)
    requires InRange(index, n)
    ensures PrevIndex(NextIndex(index, n), n) == index
    ensures NextIndex(PrevIndex(index, n), n) == index
  {
  }

  /** A dot click sets the cursor to its slide, and a second click on the
      same dot changes nothing. */
  lemma DotIdempotent(index: int, n: nat, target: int)
    ensures Step(index, n, Dot(target)) == target
    ensures Step(Step(index, n, Dot(target)), n, Dot(target)) == Step(index, n, Dot(target))
  {
  }

  /** The forward arrow computes its target from the index of the last
      render. If the interval has fired but its update is not yet rendered,
      the click overwrites the tick: the cursor is still valid, but for two
      or more slides it differs from the tick followed by the click. */
  lemma StaleForwardAfterTick(index: int, n: nat)
    requires InRange(index, n)
    ensures InRange(NextIndex(index, n), n)
    ensures n >= 2 ==> NextIndex(index, n) != NextIndex(TickIndex(index, n), n)
  {
  }

  /** k ticks from a valid cursor move it k places forward modulo n. */
  lemma {:induction false} TicksAreShift(index: int, n: nat, k: nat)
    requires InRange(index, n)
    ensures Ticks(index, n, k) == (index + k) % n
  {
    if k > 0 {
      var x := index + k - 1;
      TicksAreShift(index, n, k - 1);
      assert Ticks(index, n, k) == TickIndex(x % n, n);
      SuccessorMod(x, n);
    }
  }

  /** n ticks bring a valid cursor back to where it started. */
  lemma TicksPeriod(index: int, n: nat)
    requires InRange(index, n)
    ensures Ticks(index, n, n) == index
  {
    TicksAreShift(index, n, n);
    ModUnique(index + n, n, 1, index);
  }

  /** With no slides the interval never wraps: the cursor counts up without bound. */
  lemma {:induction false} TicksWithoutSlides(index: int, k: nat)
    requires index >= 0
    ensures Ticks(index, 0, k) == index + k
  {
    if k > 0 {
      TicksWithoutSlides(index, k - 1);
    }
  }

  /** Exactly one slide is displayed when the cursor is valid, none otherwise,
      and the displayed one is the slide at the cursor. */
  lemma {:induction false} ExactlyOneShown(n: nat, index: int)
    ensures CountTrue(Shown(n, index)) == (if InRange(index, n) then 1 else 0)
    ensures InRange(index, n) ==> Shown(n, index)[index]
  {
    if n > 0 {
      ExactlyOneShown(n - 1, index);
      assert Shown(n, index)[..n - 1] == Shown(n - 1, index);
    }
  }

  /** The successor of x modulo n is the wrapped successor of x's residue. */
  lemma SuccessorMod(x: int, n: nat)
    requires x >= 0 && n >= 1
    ensures (x + 1) % n == (if x % n == n - 1 then 0 else x % n + 1)
  {
    var q, r := x / n, x % n;
    assert x == q * n + r;
    if r == n - 1 {
      assert x + 1 == (q + 1) * n + 0;
      ModUnique(x + 1, n, q + 1, 0);
    } else {
      ModUnique(x + 1, n, q, r + 1);
    }
  }

  /** The remainder is determined by any quotient/remainder decomposition. */
  lemma ModUnique(x: int, n: nat, q: int, r: int)
    requires n >= 1 && 0 <= r < n && x == q * n + r
    ensures x % n == r
  {
    var q', r' := x / n, x % n;
    assert x == q' * n + r';
    assert (q - q') * n == r' - r;
    ProductBounds(q - q', n);
  }

  /** A nonzero multiple of n is at least n away from zero. */
  lemma ProductBounds(d: int, n: nat)
    requires n >= 1
    ensures d >= 1 ==> d * n >= n
    ensures d <= -1 ==> d * n <= 0 - n
  {
  }
}
