/** The portfolio carousel: a slideshow of `itemCount` pictures with arrow
    buttons, dots, the keyboard's left and right arrows and horizontal swipes,
    and a grid view that shows every picture at once. Touch coordinates are
    whole pixels. */
module Portfolio {

  /** The swipe threshold (`minSwipeDistance`), in pixels. */
  const MinSwipeDistance: int := 50

  /** `nextSlide`: `(prev + 1) % n`, wrapping from the last slide to the first. */
  function NextIndex(i: int, n: int): (r: int)
    requires 0 <= i < n
    ensures 0 <= r < n
    ensures r == (if i == n - 1 then 0 else i + 1)
  {
    (i + 1) % n
  }

  /** `prevSlide`: `(prev - 1 + n) % n`, wrapping from the first slide to the
      last. The dividend is never negative, so JavaScript's `%` and Dafny's agree. */
  function PrevIndex(i: int, n: int): (r: int)
    requires 0 <= i < n
    ensures 0 <= r < n
    ensures r == (if i == 0 then n - 1 else i - 1)
  {
    (i - 1 + n) % n
  }

  /** The arrows undo each other. */
  lemma NextPrevInverse(i: int, n: int)
    requires 0 <= i < n
    ensures PrevIndex(NextIndex(i, n), n) == i
    ensures NextIndex(PrevIndex(i, n), n) == i
  {
  }

  /** The slide reached by pressing the right arrow `k` times from slide `i`. */
  function Advance(i: int, n: int, k: nat): (r: int)
    requires 0 <= i < n
    ensures 0 <= r < n
  {
    if k == 0 then i else NextIndex(Advance(i, n, k - 1), n)
  }

  /** Within one round, `k` presses of the right arrow from slide `i` land on
      `i + k`, wrapped once past the last slide. */
  lemma {:induction false} AdvanceWithinRound(i: int, n: int, k: nat)
    requires 0 <= i < n && k <= n
    ensures Advance(i, n, k) == if i + k < n then i + k else i + k - n
  {
    if k > 0 {
      AdvanceWithinRound(i, n, k - 1);
    }
  }

  /** `n` presses of the same arrow go round the whole carousel. */
  lemma FullCircle(i: int, n: int)
    requires 0 <= i < n
    ensures Advance(i, n, n) == i
  {
    AdvanceWithinRound(i, n, n);
  }

  /** `handleTouchEnd`'s decision for a gesture from `start` to `end` (`clientX`
      at touch start and at the last move) on slide `i`: a drag of more than 50
      pixels to the left shows the next slide, to the right the previous one. */
  function SwipeTarget(start: int, end: int, i: int, n: int): (r: int)
    requires 0 <= i < n
    ensures 0 <= r < n
  {
    var diff := start - end;
    if (if diff < 0 then -diff else diff) > MinSwipeDistance then
      (if diff > 0 then NextIndex(i, n) else PrevIndex(i, n))
    else i
  }

  /** The three outcomes of a swipe. */
  lemma SwipeCases(start: int, end: int, i: int, n: int)
    requires 0 <= i < n
    ensures start - end > MinSwipeDistance ==> SwipeTarget(start, end, i, n) == NextIndex(i, n)
    ensures end - start > MinSwipeDistance ==> SwipeTarget(start, end, i, n) == PrevIndex(i, n)
    ensures -MinSwipeDistance <= start - end <= MinSwipeDistance ==> SwipeTarget(start, end, i, n) == i
  {
  }

  /** A swipe followed by the same swipe in the opposite direction returns to
      the slide it started from. */
  lemma SwipeBackAndForth(start: int, end: int, i: int, n: int)
    requires 0 <= i < n
    ensures SwipeTarget(end, start, SwipeTarget(start, end, i, n), n) == i
  {
    NextPrevInverse(i, n);
  }

  /** The component's state. `boundStart` and `boundEnd` are the values of
      `touchStart` and `touchEnd` as they were in the render whose effect attached
      the current `touchend` listener: the effect depends on `isGridView` only, so
      the listener is replaced only when the view changes. */
  class Carousel {
    const itemCount: int
    var currentSlide: int
    var isGridView: bool
    var touchStart: int
    var touchEnd: int
    var boundStart: int
    var boundEnd: int

    ghost predicate Valid()
      reads this
    {
      itemCount > 0 && 0 <= currentSlide < itemCount
    }

    /** The first slide, in the view the configuration asks for, with no touch
        in progress. */
    constructor (n: int, isGrid: bool)
      requires n > 0
      ensures Valid()
      ensures itemCount == n && currentSlide == 0 && isGridView == isGrid
      ensures touchStart == 0 && touchEnd == 0 && boundStart == 0 && boundEnd == 0
    {
      itemCount := n;
      currentSlide := 0;
      isGridView := isGrid;
      touchStart, touchEnd := 0, 0;
      boundStart, boundEnd := 0, 0;
    }

    /** The right arrow button. */
    method NextSlide()
      requires Valid()
      modifies this
      ensures Valid()
      ensures currentSlide == NextIndex(old(currentSlide), itemCount)
      ensures isGridView == old(isGridView)
      ensures touchStart == old(touchStart) && touchEnd == old(touchEnd)
      ensures boundStart == old(boundStart) && boundEnd == old(boundEnd)
    {
      currentSlide := (currentSlide + 1) % itemCount;
    }

    /** The left arrow button. */
    method PrevSlide()
      requires Valid()
      modifies this
      ensures Valid()
      ensures currentSlide == PrevIndex(old(currentSlide), itemCount)
      ensures isGridView == old(isGridView)
      ensures touchStart == old(touchStart) && touchEnd == old(touchEnd)
      ensures boundStart == old(boundStart) && boundEnd == old(boundEnd)
    {
      currentSlide := (currentSlide - 1 + itemCount) % itemCount;
    }

    /** The dot of slide `k`. */
    method SelectDot(k: int)
      requires Valid() && 0 <= k < itemCount
      modifies this
      ensures Valid()
      ensures currentSlide == k
      ensures isGridView == old(isGridView)
      ensures touchStart == old(touchStart) && touchEnd == old(touchEnd)
      ensures boundStart == old(boundStart) && boundEnd == old(boundEnd)
    {
      currentSlide := k;
    }

    /** The slideshow and grid buttons. When the view actually changes, the
        touch effect runs again and the new `touchend` listener captures the
        touch coordinates of that render. */
    method SetGridView(v: bool)
      requires Valid()
      modifies this
      ensures Valid()
      ensures isGridView == v && currentSlide == old(currentSlide)
      ensures touchStart == old(touchStart) && touchEnd == old(touchEnd)
      ensures v != old(isGridView) ==> boundStart == touchStart && boundEnd == touchEnd
      ensures v == old(isGridView) ==> boundStart == old(boundStart) && boundEnd == old(boundEnd)
    {
      if v != isGridView {
        boundStart, boundEnd := touchStart, touchEnd;
      }
      isGridView := v;
    }

    /** `touchstart` on the slideshow as written (the listener exists only in
        that view): only the start coordinate is recorded, so until a move the
        end coordinate is whatever the last reset or gesture left. */
    method TouchStartAsWritten(x: int)
      requires Valid() && !isGridView
      modifies this
      ensures Valid()
      ensures touchStart == x && touchEnd == old(touchEnd)
      ensures currentSlide == old(currentSlide) && isGridView == old(isGridView)
      ensures boundStart == old(boundStart) && boundEnd == old(boundEnd)
    {
      touchStart := x;
    }

    /** `touchstart` as intended: a gesture begins at rest, with its end where
        it started, so a release without a move is no swipe. */
    method TouchStart(x: int)
      requires Valid() && !isGridView
      modifies this
      ensures Valid()
      ensures touchStart == x && touchEnd == x
      ensures currentSlide == old(currentSlide) && isGridView == old(isGridView)
      ensures boundStart == old(boundStart) && boundEnd == old(boundEnd)
    {
      touchStart, touchEnd := x, x;
    }

    /** `touchmove` on the slideshow. */
    method TouchMove(x: int)
      requires Valid() && !isGridView
      modifies this
      ensures Valid()
      ensures touchEnd == x && touchStart == old(touchStart)
      ensures currentSlide == old(currentSlide) && isGridView == old(isGridView)
      ensures boundStart == old(boundStart) && boundEnd == old(boundEnd)
    {
      touchEnd := x;
    }

    /** `touchend` as the component wires it: the attached listener reads the
        coordinates it captured when it was attached, not the current ones, and
        then clears both. */
    method TouchEndAsWritten()
      requires Valid() && !isGridView
      modifies this
      ensures Valid()
      ensures currentSlide == SwipeTarget(boundStart, boundEnd, old(currentSlide), itemCount)
      ensures touchStart == 0 && touchEnd == 0
      ensures isGridView == old(isGridView)
      ensures boundStart == old(boundStart) && boundEnd == old(boundEnd)
    {
      var touchDiff := boundStart - boundEnd;
      if (if touchDiff < 0 then -touchDiff else touchDiff) > MinSwipeDistance {
        if touchDiff > 0 {
          NextSlide();
        } else {
          PrevSlide();
        }
      }
      touchStart, touchEnd := 0, 0;
    }

    /** `touchend` as intended: the gesture's own coordinates decide, as
        `TouchStart` and `TouchMove` recorded them. */
    method TouchEnd()
      requires Valid() && !isGridView
      modifies this
      ensures Valid()
      ensures currentSlide == SwipeTarget(old(touchStart), old(touchEnd), old(currentSlide), itemCount)
      ensures touchStart == 0 && touchEnd == 0
      ensures isGridView == old(isGridView)
      ensures boundStart == old(boundStart) && boundEnd == old(boundEnd)
    {
      var touchDiff := touchStart - touchEnd;
      if (if touchDiff < 0 then -touchDiff else touchDiff) > MinSwipeDistance {
        if touchDiff > 0 {
          NextSlide();
        } else {
          PrevSlide();
        }
      }
      touchStart, touchEnd := 0, 0;
    }

    /** `keydown` anywhere in the window: the arrow keys move the slideshow and
        do nothing in the grid view. */
    method KeyDown(key: string)
      requires Valid()
      modifies this
      ensures Valid()
      ensures currentSlide ==
        if old(isGridView) then old(currentSlide)
        else if key == "ArrowLeft" then PrevIndex(old(currentSlide), itemCount)
        else if key == "ArrowRight" then NextIndex(old(currentSlide), itemCount)
        else old(currentSlide)
      ensures isGridView == old(isGridView)
      ensures touchStart == old(touchStart) && touchEnd == old(touchEnd)
      ensures boundStart == old(boundStart) && boundEnd == old(boundEnd)
    {
      if !isGridView {
        if key == "ArrowLeft" {
          PrevSlide();
        } else if key == "ArrowRight" {
          NextSlide();
        }
      }
    }
  }

  /** Whatever listener is attached, the coordinates it captured decide: when
      they are equal (both 0 in every render that had no gesture in progress),
      no swipe ever changes the slide. */
  lemma CapturedRestNeverSwipes(c: int, i: int, n: int)
    requires 0 <= i < n
    ensures SwipeTarget(c, c, i, n) == i
  {
  }

  /** A 200-pixel swipe to the left on the first of five slides, on a carousel
      that opened in the slideshow view: as written the slide stays at 0, with
      the gesture's own coordinates it moves to 1. */
  method SwipeOnFreshCarousel() returns (asWritten: int, intended: int)
    ensures asWritten == 0 && intended == 1
  {
    var a := new Carousel(5, false);
    a.TouchStartAsWritten(300);
    a.TouchMove(100);
    a.TouchEndAsWritten();
    asWritten := a.currentSlide;

    var b := new Carousel(5, false);
    b.TouchStart(300);
    b.TouchMove(100);
    b.TouchEnd();
    intended := b.currentSlide;
  }

  /** A tap, a touch released without a move, never changes the slide once a
      gesture starts at rest: it stays on the slide it was on, whatever came
      before and wherever the finger landed. */
  method Tap(c: Carousel, x: int)
    requires c.Valid() && !c.isGridView
    modifies c
    ensures c.Valid()
    ensures c.currentSlide == old(c.currentSlide)
    ensures c.touchStart == 0 && c.touchEnd == 0
  {
    c.TouchStart(x);
    c.TouchEnd();
  }

  /** A tap at `x` on slide `k` of a fresh `n`-slide carousel opened in the
      slideshow view leaves it on slide `k`, so a tap on an arrow button moves
      one slide and not two. */
  method TapOnCarousel(n: int, k: int, x: int) returns (slide: int)
    requires 0 <= k < n
    ensures slide == k
  {
    var c := new Carousel(n, false);
    c.SelectDot(k);
    Tap(c, x);
    slide := c.currentSlide;
  }
}
