/**
 * The landing page carousel: the slide index arithmetic behind the previous, next
 * and dot buttons, and the condition under which the slides advance on their own.
 */
module Landing {
  import opened Js

  /** The number of slides (markdown, focus, share, multi). */
  const Total: nat := 4

  predicate InRange(i: int) { 0 <= i < Total }

  /** `next`: `(i + 1) % total`, with the JavaScript remainder. */
  function Next(i: int): (j: int)
    ensures InRange(i) ==> InRange(j)
    ensures InRange(i) ==> j == (i + 1) % Total
  {
    Rem(i + 1, Total)
  }

  /** `prev`: `(i - 1 + total) % total`. */
  function Prev(i: int): (j: int)
    ensures InRange(i) ==> InRange(j)
    ensures InRange(i) ==> j == (i + Total - 1) % Total
  {
    Rem(i - 1 + Total, Total)
  }

  /** `goto`: `((i % total) + total) % total`, which lands in range for every integer. */
  function Goto(i: int): (j: int)
    ensures InRange(j)
    ensures j == i % Total
  {
    var r := Rem(i, Total);
    assert r == i % Total || r == i % Total - Total;
    Rem(r + Total, Total)
  }

  /** A dot button passes its own index, so `goto` moves there unchanged. */
  lemma GotoInRange(i: int)
    requires InRange(i)
    ensures Goto(i) == i
  {
  }

  /** Previous undoes next and next undoes previous, for every index the carousel can hold. */
  lemma PrevNextInverse(i: int)
    requires InRange(i)
    ensures Prev(Next(i)) == i
    ensures Next(Prev(i)) == i
  {
  }

  /** `Steps(n, i)`: the index after `n` presses of next (or `n` autoplay ticks). */
  function Steps(n: nat, i: int): (j: int)
    requires InRange(i)
    ensures InRange(j)
  {
    if n == 0 then i else Next(Steps(n - 1, i))
  }

  /** After `n` steps the index is `i + n` taken round the slides, so every `Total` steps it is back where it started. */
  lemma {:induction false} StepsWrap(n: nat, i: int)
    requires InRange(i)
    ensures Steps(n, i) == (i + n) % Total
  {
    if n > 0 {
      StepsWrap(n - 1, i);
      NextOfRemainder(i + n - 1);
    }
  }

  /** Stepping from the slide of `x` lands on the slide of `x + 1`. */
  lemma NextOfRemainder(x: nat)
    ensures Next(x % Total) == (x + 1) % Total
  {
    var q, r := x / Total, x % Total;
    assert x == q * Total + r;
    if r == Total - 1 {
      assert x + 1 == (q + 1) * Total;
    } else {
      assert x + 1 == q * Total + (r + 1);
    }
  }

  /** Without the extra `+ total`, `goto` would leave negative indices negative. */
  lemma RemAloneIsNotEnough()
    ensures Rem(-1, Total) == -1
    ensures Goto(-1) == Total - 1
  {
  }

  // ---------------------------------------------------------------------------
  // Autoplay

  /** The carousel state the autoplay effect depends on. */
  datatype Carousel = Carousel(index: int, paused: bool, focusWithin: bool, reduced: bool)

  /** The interval is installed when the carousel is neither paused, nor holding focus, nor under reduced motion. */
  predicate Autoplays(c: Carousel)
  {
    !c.paused && !c.focusWithin && !c.reduced
  }

  /** One interval tick: the index advances only while autoplay is on. */
  function Tick(c: Carousel): (d: Carousel)
    ensures d.index == (if Autoplays(c) then Next(c.index) else c.index)
    ensures d.paused == c.paused && d.focusWithin == c.focusWithin && d.reduced == c.reduced
  {
    if Autoplays(c) then c.(index := Next(c.index)) else c
  }

  /** The pause button flips `paused` and nothing else. */
  function TogglePause(c: Carousel): (d: Carousel)
    ensures d.paused == !c.paused
    ensures d.index == c.index && d.focusWithin == c.focusWithin && d.reduced == c.reduced
  {
    c.(paused := !c.paused)
  }

  /** Two presses of the pause button restore the state; exactly one of the two states autoplays when nothing else holds it. */
  lemma TogglePauseProperties(c: Carousel)
    ensures TogglePause(TogglePause(c)) == c
    ensures !c.focusWithin && !c.reduced ==> (Autoplays(c) <==> !Autoplays(TogglePause(c)))
    ensures c.reduced ==> !Autoplays(c) && !Autoplays(TogglePause(c))
  {
  }

  /** Hovering pauses and leaving resumes; focus inside stops the autoplay until it leaves. */
  function MouseEnter(c: Carousel): (d: Carousel)
    ensures !Autoplays(d) && d.index == c.index
  {
    c.(paused := true)
  }

  function MouseLeave(c: Carousel): (d: Carousel)
    ensures d.paused == false && d.index == c.index && d.focusWithin == c.focusWithin
  {
    c.(paused := false)
  }

  function FocusCapture(c: Carousel): (d: Carousel)
    ensures !Autoplays(d) && d.index == c.index && d.paused == c.paused
  {
    c.(focusWithin := true)
  }

  /** `onBlurCapture`: focus within is cleared only when it moves outside the carousel. */
  function BlurCapture(c: Carousel, leavesCarousel: bool): (d: Carousel)
    ensures d.focusWithin == (c.focusWithin && !leavesCarousel)
    ensures d.index == c.index && d.paused == c.paused
  {
    if leavesCarousel then c.(focusWithin := false) else c
  }
}
