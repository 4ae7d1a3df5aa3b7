/**
 The loading screen's progress bar. An interval adds two percent every 100 ms;
 the first tick that finds the bar already full stops the interval and
 reports that loading is done.
 */
module LoadingBar {

  const Increment: nat := 2
  const Full: nat := 100

  /** The bar's percentage, and whether its interval is still scheduled. */
  datatype Bar = Bar(progress: int, running: bool)

  function Start(): Bar
  {
    Bar(0, true)
  }

  /** What one firing of the interval produces: the new bar and whether `onLoaded` was called. */
  datatype TickResult = TickResult(bar: Bar, loaded: bool)

  /**
   One firing of the interval. Below 100 the bar grows by two; at 100 or more it
   is held at 100, the interval is cleared and `onLoaded` is called. Once cleared
   the interval no longer fires.
   */
  function Tick(b: Bar): (r: TickResult)
    ensures !b.running ==> r == TickResult(b, false)
    ensures r.loaded <==> b.running && b.progress >= Full
    ensures r.loaded ==> r.bar == Bar(Full, false)
    ensures b.running && !r.loaded ==> r.bar == Bar(b.progress + Increment, true)
  {
    if !b.running then TickResult(b, false)
    else if b.progress >= Full then TickResult(Bar(Full, false), true)
    else TickResult(Bar(b.progress + Increment, true), false)
  }

  /** The bar is always an even percentage between 0 and 100, and a stopped bar is full. */
  predicate Valid(b: Bar)
  {
    0 <= b.progress <= Full && b.progress % 2 == 0 && (!b.running ==> b.progress == Full)
  }

  /** A tick keeps the bar valid and never moves it backwards. */
  lemma TickValid(b: Bar)
    requires Valid(b)
    ensures Valid(Tick(b).bar)
    ensures b.progress <= Tick(b).bar.progress
  {
  }

  /** The bar after `n` firings of the interval from mount, and how many of them called `onLoaded`. */
  datatype Trace = Trace(bar: Bar, loads: nat)

  function Run(n: nat): Trace
  {
    if n == 0 then Trace(Start(), 0)
    else
      var prev := Run(n - 1);
      var t := Tick(prev.bar);
      Trace(t.bar, prev.loads + if t.loaded then 1 else 0)
  }

  /** The firing on which `onLoaded` is called: fifty steps of two to reach 100, one more to notice it. */
  const LoadedTick: nat := Full / Increment + 1

  /**
   After `n` firings the bar shows `min(2n, 100)` percent, and `onLoaded` has been
   called exactly once if `n` has reached the 51st firing, and never before.
   */
  lemma {:induction false} RunShape(n: nat)
    ensures Valid(Run(n).bar)
    ensures Run(n).bar.progress == if 2 * n <= Full then 2 * n else Full
    ensures Run(n).bar.running <==> n < LoadedTick
    ensures Run(n).loads == if n < LoadedTick then 0 else 1
  {
    if n > 0 {
      RunShape(n - 1);
    }
  }

  /** The bar never moves backwards along a run. */
  lemma RunMonotone(m: nat, n: nat)
    requires m <= n
    ensures Run(m).bar.progress <= Run(n).bar.progress
  {
    RunShape(m);
    RunShape(n);
  }
}
