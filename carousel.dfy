/** The image carousel controller (`initCarousel`): a slide index kept in range by
    modular arithmetic, one indicator dot per slide of which exactly the current one
    is active, a 40-unit swipe threshold, and an autoplay interval that manual
    navigation stops and restarts. */
module CarouselController {
  import opened Flags

  /** A JavaScript number as the index arithmetic sees it: an integer, or NaN,
      which `% 0` produces when the carousel has no slides. */
  datatype JsNumber = Num(n: int) | NaN

  function Plus(x: JsNumber, d: int): JsNumber {
    match x
    case Num(n) => Num(n + d)
    case NaN => NaN
  }

  function Times(x: JsNumber, k: int): JsNumber {
    match x
    case Num(n) => Num(n * k)
    case NaN => NaN
  }

  /** JavaScript's `%` on integers with a positive divisor: the remainder
      truncates toward zero, so it takes the sign of the dividend. */
  function JsRem(a: int, b: int): (r: int)
    requires b > 0
    ensures -b < r < b
    ensures a >= 0 ==> 0 <= r
    ensures a <= 0 ==> r <= 0
    ensures (a - r) % b == 0
  {
    if a >= 0 then
      ModUnique(a - a % b, b, a / b, 0);
      a % b
    else
      var q := (-a) / b;
      assert a - -((-a) % b) == (-q) * b;
      ModUnique((-q) * b, b, -q, 0);
      -((-a) % b)
  }

  /** `goTo`'s index formula `(index + total) % total`. */
  function Normalize(index: JsNumber, total: nat): (r: JsNumber)
    ensures r.Num? <==> index.Num? && total > 0
    ensures index.Num? && total > 0 && index.n >= -(total as int) ==>
              0 <= r.n < total && r.n == index.n % total
  {
    match index
    case NaN => NaN
    case Num(i) =>
      if total == 0 then NaN
      else
        ShiftMod(i, total);
        Num(JsRem(i + total, total))
  }

  /** The formula is safe only for the indices the carousel passes it (a dot's
      index, `current + 1`, `current - 1`): one below `-total` already yields a
      negative slide index. */
  lemma NormalizeBelowRange(total: nat)
    requires total >= 2
    ensures Normalize(Num(-(total as int) - 1), total) == Num(-1)
  {
  }

  lemma MulAtLeast(d: int, t: int)
    requires d >= 1 && t > 0
    ensures d * t >= t
  {
    if d > 1 {
      MulAtLeast(d - 1, t);
      assert d * t == (d - 1) * t + t;
    }
  }

  /** Euclidean `%` is determined by any quotient-remainder decomposition. */
  lemma ModUnique(x: int, t: int, q: int, r: int)
    requires t > 0 && 0 <= r < t && x == q * t + r
    ensures x % t == r
  {
    var q', r' := x / t, x % t;
    assert x == q' * t + r';
    var d := q - q';
    assert q * t - q' * t == d * t;
    if d > 0 {
      MulAtLeast(d, t);
    } else if d < 0 {
      MulAtLeast(-d, t);
    }
  }

  lemma ShiftMod(i: int, t: int)
    requires t > 0
    ensures (i + t) % t == i % t
  {
    ModUnique(i + t, t, i / t + 1, i % t);
  }

  lemma ModAddOne(x: int, t: int)
    requires t > 0
    ensures (x % t + 1) % t == (x + 1) % t
  {
    var q, r := x / t, x % t;
    assert x == q * t + r;
    if r + 1 < t {
      ModUnique(x + 1, t, q, r + 1);
      ModUnique(r + 1, t, 0, r + 1);
    } else {
      assert (q + 1) * t == q * t + t;
      ModUnique(x + 1, t, q + 1, 0);
      ModUnique(r + 1, t, 1, 0);
    }
  }

  /** The slide shown after `k` consecutive calls of `next` starting from `c`. */
  function Advance(c: JsNumber, total: nat, k: nat): JsNumber {
    if k == 0 then c else Normalize(Plus(Advance(c, total, k - 1), 1), total)
  }

  /** `k` forward steps land on slide `(c + k) mod total`. */
  lemma {:induction false} AdvanceWraps(c: int, total: nat, k: nat)
    requires 0 <= c < total
    ensures Advance(Num(c), total, k) == Num((c + k) % total)
  {
    if k > 0 {
      AdvanceWraps(c, total, k - 1);
      var prev := (c + k - 1) % total;
      assert Advance(Num(c), total, k) == Normalize(Num(prev + 1), total);
      ModAddOne(c + k - 1, total);
    }
  }

  /** After `total` steps of `next` (a full autoplay cycle) the carousel is back on the slide it started from. */
  lemma FullCycle(c: int, total: nat)
    requires 0 <= c < total
    ensures Advance(Num(c), total, total) == Num(c)
  {
    AdvanceWraps(c, total, total);
    ShiftMod(c, total);
    ModUnique(c, total, 0, c);
  }

  /** `prev` undoes `next` and `next` undoes `prev`. */
  lemma PrevUndoesNext(c: int, total: nat)
    requires 0 <= c < total
    ensures Normalize(Plus(Normalize(Num(c + 1), total), -1), total) == Num(c)
    ensures Normalize(Plus(Normalize(Num(c - 1), total), 1), total) == Num(c)
  {
    var up := Normalize(Num(c + 1), total);
    if c + 1 == total {
      ModUnique(c + 1, total, 1, 0);
    } else {
      ModUnique(c + 1, total, 0, c + 1);
    }
    assert up == Num(if c + 1 == total then 0 else c + 1);
    ModUnique(c, total, 0, c);
    if c + 1 == total {
      ModUnique(-1, total, -1, total - 1);
    }
    var down := Normalize(Num(c - 1), total);
    if c == 0 {
      ModUnique(-1, total, -1, total - 1);
    } else {
      ModUnique(c - 1, total, 0, c - 1);
    }
    assert down == Num(if c == 0 then total - 1 else c - 1);
    if c == 0 {
      ModUnique(total, total, 1, 0);
    }
  }

  /** What the `active` flags of the dots are once `goTo` has run with index `current`. */
  function ActiveDots(count: nat, current: JsNumber): seq<bool> {
    seq(count, i => current == Num(i))
  }

  /** With one dot per slide and an index in range, exactly the current dot is
      active; at a NaN index no dot is. */
  lemma ActiveDotsOneHot(count: nat, current: JsNumber)
    ensures current.Num? && 0 <= current.n < count ==>
              OnlyAt(ActiveDots(count, current), current.n) && CountTrue(ActiveDots(count, current)) == 1
    ensures current == NaN ==> CountTrue(ActiveDots(count, current)) == 0
  {
    if current.Num? {
      CountOnlyAt(ActiveDots(count, current), current.n);
    }
  }

  /** Where a finished touch gesture sends the carousel. */
  datatype Move = Forward | Backward | Stay

  function Abs(x: int): nat { if x < 0 then -x else x }

  /** The `touchend` rule on `diff = touchStartX - endX`: beyond 40 units a drag to
      the left shows the next slide, a drag to the right the previous one. */
  function SwipeMove(diff: int): (m: Move)
    ensures m == Stay <==> -40 <= diff <= 40
    ensures m == Forward <==> diff > 40
    ensures m == Backward <==> diff < -40
  {
    if Abs(diff) > 40 then (if diff > 0 then Forward else Backward) else Stay
  }

  /** The carousel's stored interval handle: `undefined` until autoplay first starts. */
  datatype Handle = Unset | Interval(id: nat)

  function HandleSet(h: Handle): set<nat> {
    match h
    case Unset => {}
    case Interval(id) => {id}
  }

  class Carousel {
    /** Number of slides. */
    const total: nat
    /** The `active` flag of each dot; empty when there is no dots container. */
    const dots: array<bool>
    const hasPrevButton: bool
    const hasNextButton: bool
    /** Index of the shown slide. */
    var current: JsNumber
    /** The track's horizontal offset, `current * 100` percent to the left. */
    var offset: JsNumber
    var touchStartX: int
    /** The interval handle the handlers stop (`autoplayTimer`). */
    var handle: Handle
    /** Intervals the browser is still running. */
    var live: set<nat>
    /** Interval ids handed out so far; the next one is `issued`. */
    var issued: nat

    /** Index in range, dots in step with it, interval ids consistent. */
    ghost predicate Valid()
      reads this, dots
    {
      (dots.Length == total || dots.Length == 0) &&
      (total > 0 ==> current.Num? && 0 <= current.n < total) &&
      (total == 0 ==> current == NaN) &&
      offset == Times(current, 100) &&
      dots[..] == ActiveDots(dots.Length, current) &&
      TimersValid()
    }

    ghost predicate TimersValid()
      reads this
    {
      (forall id :: id in live ==> id < issued) &&
      (handle.Interval? ==> handle.id < issued)
    }

    /** Running intervals that no stored handle reaches any more: nothing can ever clear them. */
    ghost function Leaked(): set<nat>
      reads this
    {
      live - HandleSet(handle)
    }

    /** Autoplay runs on at most the one interval the carousel can stop. */
    ghost predicate SingleTimer()
      reads this
    {
      live <= HandleSet(handle)
    }

    /** Whenever the carousel has dots, exactly one of them is active: the current slide's. */
    lemma ExactlyOneDot()
      requires Valid() && dots.Length > 0
      ensures current.Num? && dots[current.n]
      ensures OnlyAt(dots[..], current.n) && CountTrue(dots[..]) == 1
    {
      ActiveDotsOneHot(dots.Length, current);
    }

    /** `initCarousel` on a wrapper with `slides` slides: build the dots (when a dots
        container exists), show slide 0 and start autoplay. */
    constructor (slides: nat, withDots: bool, withPrev: bool, withNext: bool)
      ensures Valid() && SingleTimer() && fresh(dots)
      ensures total == slides && dots.Length == (if withDots then slides else 0)
      ensures hasPrevButton == withPrev && hasNextButton == withNext
      ensures current == if slides > 0 then Num(0) else NaN
      ensures handle == Interval(0) && live == {0} && issued == 1
      ensures touchStartX == 0
    {
      total := slides;
      dots := new bool[if withDots then slides else 0](i => i == 0);
      hasPrevButton, hasNextButton := withPrev, withNext;
      current, offset, touchStartX := Num(0), Num(0), 0;
      handle, live, issued := Unset, {}, 0;
      new;
      GoTo(Num(0));
      StartAutoplay();
    }

    /** `goTo(index)`: normalise the index, move the track and rewrite every dot. */
    method GoTo(index: JsNumber)
      modifies this, dots
      ensures current == Normalize(index, total)
      ensures offset == Times(current, 100)
      ensures dots[..] == ActiveDots(dots.Length, current)
      ensures touchStartX == old(touchStartX)
      ensures handle == old(handle) && live == old(live) && issued == old(issued)
    {
      current := Normalize(index, total);
      offset := Times(current, 100);
      for i := 0 to dots.Length
        modifies dots
        invariant forall j :: 0 <= j < i ==> dots[j] == (current == Num(j))
      {
        dots[i] := current == Num(i);
      }
    }

    /** `next()`. */
    method Next()
      requires Valid()
      modifies this, dots
      ensures Valid()
      ensures current == Normalize(Plus(old(current), 1), total)
      ensures touchStartX == old(touchStartX)
      ensures handle == old(handle) && live == old(live) && issued == old(issued)
    {
      GoTo(Plus(current, 1));
    }

    /** `prev()`. */
    method Prev()
      requires Valid()
      modifies this, dots
      ensures Valid()
      ensures current == Normalize(Plus(old(current), -1), total)
      ensures touchStartX == old(touchStartX)
      ensures handle == old(handle) && live == old(live) && issued == old(issued)
    {
      GoTo(Plus(current, -1));
    }

    /** `startAutoplay()`: a new interval, whose handle overwrites the stored one
        without clearing it. */
    method StartAutoplay()
      requires TimersValid()
      modifies this
      ensures TimersValid()
      ensures live == old(live) + {old(issued)} && old(issued) !in old(live)
      ensures handle == Interval(old(issued)) && issued == old(issued) + 1
      ensures current == old(current) && offset == old(offset) && touchStartX == old(touchStartX)
    {
      handle := Interval(issued);
      live := live + {issued};
      issued := issued + 1;
    }

    /** `stopAutoplay()`: clear the stored interval (a no-op on `undefined` or on an interval already cleared). */
    method StopAutoplay()
      requires TimersValid()
      modifies this
      ensures TimersValid()
      ensures live == old(live) - HandleSet(old(handle))
      ensures handle == old(handle) && issued == old(issued)
      ensures current == old(current) && offset == old(offset) && touchStartX == old(touchStartX)
    {
      if handle.Interval? {
        live := live - {handle.id};
      }
    }

    /** The stop, move, start sequence every arrow, key and swipe handler runs.
        It stops the stored interval before starting the next one, so it never leaks one. */
    method Restart(forward: bool)
      requires Valid()
      modifies this, dots
      ensures Valid()
      ensures current == Normalize(Plus(old(current), if forward then 1 else -1), total)
      ensures live == (old(live) - HandleSet(old(handle))) + {old(issued)}
      ensures handle == Interval(old(issued)) && issued == old(issued) + 1
      ensures Leaked() == old(Leaked())
      ensures old(SingleTimer()) ==> SingleTimer()
      ensures touchStartX == old(touchStartX)
    {
      StopAutoplay();
      if forward { Next(); } else { Prev(); }
      StartAutoplay();
    }

    /** Click on the previous-slide arrow, when there is one. */
    method PrevClick()
      requires Valid()
      modifies this, dots
      ensures Valid()
      ensures hasPrevButton ==>
                current == Normalize(Plus(old(current), -1), total) &&
                live == (old(live) - HandleSet(old(handle))) + {old(issued)} &&
                handle == Interval(old(issued)) && issued == old(issued) + 1
      ensures !hasPrevButton ==>
                current == old(current) && live == old(live) && handle == old(handle) && issued == old(issued)
      ensures Leaked() == old(Leaked()) && (old(SingleTimer()) ==> SingleTimer())
      ensures touchStartX == old(touchStartX)
    {
      if hasPrevButton { Restart(false); }
    }

    /** Click on the next-slide arrow, when there is one. */
    method NextClick()
      requires Valid()
      modifies this, dots
      ensures Valid()
      ensures hasNextButton ==>
                current == Normalize(Plus(old(current), 1), total) &&
                live == (old(live) - HandleSet(old(handle))) + {old(issued)} &&
                handle == Interval(old(issued)) && issued == old(issued) + 1
      ensures !hasNextButton ==>
                current == old(current) && live == old(live) && handle == old(handle) && issued == old(issued)
      ensures Leaked() == old(Leaked()) && (old(SingleTimer()) ==> SingleTimer())
      ensures touchStartX == old(touchStartX)
    {
      if hasNextButton { Restart(true); }
    }

    /** Click on dot `i`: `goTo(i)` alone; autoplay is neither stopped nor restarted. */
    method DotClick(i: nat)
      requires Valid()
      modifies this, dots
      ensures Valid()
      ensures current == if i < dots.Length then Num(i) else old(current)
      ensures i < dots.Length ==> OnlyAt(dots[..], i)
      ensures handle == old(handle) && live == old(live) && issued == old(issued)
      ensures touchStartX == old(touchStartX)
    {
      if i < dots.Length {
        GoTo(Num(i));
        assert current == Num(i) by {
          ModUnique(i, total, 0, i);
        }
      }
    }

    /** Arrow keys on the focused wrapper. */
    method KeyDown(key: string)
      requires Valid()
      modifies this, dots
      ensures Valid()
      ensures key == "ArrowLeft" ==> current == Normalize(Plus(old(current), -1), total)
      ensures key == "ArrowRight" ==> current == Normalize(Plus(old(current), 1), total)
      ensures key == "ArrowLeft" || key == "ArrowRight" ==>
                live == (old(live) - HandleSet(old(handle))) + {old(issued)} &&
                handle == Interval(old(issued)) && issued == old(issued) + 1
      ensures key != "ArrowLeft" && key != "ArrowRight" ==>
                current == old(current) && live == old(live) && handle == old(handle) && issued == old(issued)
      ensures Leaked() == old(Leaked()) && (old(SingleTimer()) ==> SingleTimer())
      ensures touchStartX == old(touchStartX)
    {
      if key == "ArrowLeft" { Restart(false); }
      if key == "ArrowRight" { Restart(true); }
    }

    /** `touchstart`: remember where the finger came down. */
    method TouchStart(x: int)
      requires Valid()
      modifies this`touchStartX
      ensures Valid()
      ensures touchStartX == x
    {
      touchStartX := x;
    }

    /** `touchend`: navigate only when the drag exceeds the threshold. */
    method TouchEnd(x: int)
      requires Valid()
      modifies this, dots
      ensures Valid()
      ensures current == match SwipeMove(old(touchStartX) - x)
                         case Stay => old(current)
                         case Forward => Normalize(Plus(old(current), 1), total)
                         case Backward => Normalize(Plus(old(current), -1), total)
      ensures SwipeMove(old(touchStartX) - x) != Stay ==>
                live == (old(live) - HandleSet(old(handle))) + {old(issued)} &&
                handle == Interval(old(issued)) && issued == old(issued) + 1
      ensures SwipeMove(old(touchStartX) - x) == Stay ==>
                live == old(live) && handle == old(handle) && issued == old(issued)
      ensures Leaked() == old(Leaked()) && (old(SingleTimer()) ==> SingleTimer())
      ensures touchStartX == old(touchStartX)
    {
      var diff := touchStartX - x;
      if Abs(diff) > 40 {
        Restart(diff > 0);
      }
    }

    /** `mouseenter` pauses autoplay by clearing the stored interval. */
    method MouseEnter()
      requires Valid()
      modifies this
      ensures Valid()
      ensures live == old(live) - HandleSet(old(handle))
      ensures handle == old(handle) && issued == old(issued)
      ensures current == old(current) && touchStartX == old(touchStartX)
      ensures Leaked() == old(Leaked())
      ensures old(SingleTimer()) ==> live == {}
    {
      StopAutoplay();
    }

    /** `mouseleave` starts a new interval WITHOUT clearing the stored one: the
        interval that was running (if any) is no longer reachable. */
    method MouseLeave()
      requires Valid()
      modifies this
      ensures Valid()
      ensures live == old(live) + {old(issued)}
      ensures handle == Interval(old(issued)) && issued == old(issued) + 1
      ensures current == old(current) && touchStartX == old(touchStartX)
      ensures Leaked() == old(live)
      ensures old(live) == {} ==> SingleTimer()
    {
      StartAutoplay();
    }

    /** The `mouseleave` handler as the pause-on-hover design intends it: stop
        before starting, so that no interval escapes the stored handle. */
    method MouseLeaveRestart()
      requires Valid()
      modifies this
      ensures Valid()
      ensures live == (old(live) - HandleSet(old(handle))) + {old(issued)}
      ensures handle == Interval(old(issued)) && issued == old(issued) + 1
      ensures current == old(current) && touchStartX == old(touchStartX)
      ensures Leaked() == old(Leaked())
      ensures old(SingleTimer()) ==> SingleTimer()
    {
      StopAutoplay();
      StartAutoplay();
    }

    /** The browser firing interval `id`: a live interval runs `next`. */
    method Tick(id: nat)
      requires Valid()
      modifies this, dots
      ensures Valid()
      ensures current == if id in live then Normalize(Plus(old(current), 1), total) else old(current)
      ensures handle == old(handle) && live == old(live) && issued == old(issued)
      ensures touchStartX == old(touchStartX)
    {
      if id in live { Next(); }
    }
  }

  /** Hover over the carousel, click the next arrow, move away: the click restarts
      autoplay while the pointer is still inside, and leaving starts a second
      interval beside it. Hovering again stops only the newer one, so autoplay
      keeps advancing under the pointer. */
  method HoverClickLeave() returns (c: Carousel)
    ensures c.Valid()
    ensures c.live == {1} && c.Leaked() == {1}
    ensures c.current == Num(1)
  {
    c := new Carousel(3, true, true, true);
    c.MouseEnter();
    c.NextClick();
    c.MouseLeave();
    c.MouseEnter();
  }

  /** The same gesture with the intended `mouseleave`: one interval runs, and
      hovering again pauses autoplay completely. */
  method HoverClickLeaveRestart() returns (c: Carousel)
    ensures c.Valid() && c.SingleTimer()
    ensures c.live == {}
    ensures c.current == Num(1)
  {
    c := new Carousel(3, true, true, true);
    c.MouseEnter();
    c.NextClick();
    c.MouseLeaveRestart();
    c.MouseEnter();
  }
}
