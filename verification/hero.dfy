/**
 The hero banner's slide show: three slides, an index that advances every five
 seconds and wraps around, and a row of dots that select a slide directly.
 */
module HeroSlider {

  /** A slide, by its id; its image and caption are display only. */
  datatype Slide = Slide(id: nat)

  function Slides(): seq<Slide>
  {
    [Slide(1), Slide(2), Slide(3)]
  }

  /** The number of slides. */
  const Count: nat := 3

  lemma CountMatchesSlides()
    ensures |Slides()| == Count
  {
  }

  /** The index shown when the banner mounts. */
  const First: nat := 0

  /** The interval's step: the next slide, wrapping from the last to the first. */
  function Advance(current: int): (next: int)
    ensures 0 <= next < Count
    ensures 0 <= current < Count - 1 ==> next == current + 1
    ensures current == Count - 1 ==> next == First
  {
    (current + 1) % Count
  }

  /** Whether dot `index` is drawn as active. */
  predicate DotActive(current: int, index: nat)
  {
    current == index
  }

  /** The indices of the dots drawn as active. */
  function ActiveDots(current: int): set<nat>
  {
    set index: nat | index < Count && DotActive(current, index)
  }

  /** For any index on the slide show, exactly that one dot is active. */
  lemma OneActiveDot(current: int)
    requires 0 <= current < Count
    ensures ActiveDots(current) == {current as nat}
  {
  }

  /** A click on dot `index` shows that slide, and the clicked dot becomes the only active one. */
  function Select(current: int, index: nat): (next: int)
    requires index < Count
    ensures 0 <= next < Count
    ensures DotActive(next, index) && ActiveDots(next) == {index}
  {
    OneActiveDot(index);
    index
  }

  /** The index after `n` steps of the interval. */
  function AdvanceTimes(current: int, n: nat): int
    decreases n
  {
    if n == 0 then current else Advance(AdvanceTimes(current, n - 1))
  }

  /** From any slide, `n` steps of the interval show slide `(current + n) mod 3`. */
  lemma {:induction false} AdvanceTimesModulo(current: int, n: nat)
    requires 0 <= current < Count
    ensures AdvanceTimes(current, n) == (current + n) % Count
    decreases n
  {
    if n > 0 {
      AdvanceTimesModulo(current, n - 1);
      ModSuccessor(current + n - 1);
    }
  }

  lemma ModSuccessor(x: nat)
    ensures (x % Count + 1) % Count == (x + 1) % Count
  {
  }

  /** Three steps of the interval come back to the same slide. */
  lemma FullCycleReturns(current: int)
    requires 0 <= current < Count
    ensures AdvanceTimes(current, Count) == current
  {
    AdvanceTimesModulo(current, Count);
  }

  /** A step of the interval, or a click on a dot. */
  datatype Event = Interval | Dot(index: nat)

  function Apply(current: int, e: Event): int
    requires e.Dot? ==> e.index < Count
  {
    match e
    case Interval => Advance(current)
    case Dot(i) => Select(current, i)
  }

  function Run(current: int, es: seq<Event>): int
    requires forall k :: 0 <= k < |es| && es[k].Dot? ==> es[k].index < Count
    decreases |es|
  {
    if es == [] then current else Run(Apply(current, es[0]), es[1..])
  }

  /**
   Whatever mix of interval steps and dot clicks follows mount, the index names
   one of the slides and exactly one dot is active; the last dot clicked is the
   slide shown when no interval step came after it.
   */
  lemma {:induction false} RunInRange(current: int, es: seq<Event>)
    requires 0 <= current < Count
    requires forall k :: 0 <= k < |es| && es[k].Dot? ==> es[k].index < Count
    ensures 0 <= Run(current, es) < |Slides()|
    ensures ActiveDots(Run(current, es)) == {Run(current, es) as nat}
    ensures |es| > 0 && es[|es| - 1].Dot? ==> Run(current, es) == es[|es| - 1].index
    decreases |es|
  {
    if es == [] {
      OneActiveDot(current);
    } else {
      RunInRange(Apply(current, es[0]), es[1..]);
    }
  }
}
