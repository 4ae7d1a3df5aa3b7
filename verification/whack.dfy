/**
 The Whack-a-Mole mini-game: nine holes, a score, and a twenty-second clock.

 The program drives the board from three timers (a spawner every 600 ms that
 raises a random mole, a 800 ms timeout that lowers it again, and a one-second
 countdown). Each timer callback is one event here; the random hole is the
 event's `slot` argument, and the delays are left to the caller's choice of
 event order.
 */
module WhackAMole {

  const Slots: nat := 9
  const Duration: nat := 20
  /** Hits needed, at the moment the clock runs out, for a win. */
  const WinScore: nat := 15

  datatype Game = Game(moles: seq<bool>, score: nat, timeLeft: int)

  /** The board when the game mounts: every hole empty, no hits, full time. */
  function Mount(): (g: Game)
    ensures |g.moles| == Slots && g.score == 0 && g.timeLeft == Duration as int
    ensures Up(g.moles) == 0
  {
    var g := Game(seq(Slots, _ => false), 0, Duration);
    NoneUp(g.moles);
    g
  }

  /** The number of moles currently up. */
  function Up(moles: seq<bool>): nat
  {
    if moles == [] then 0 else (if moles[0] then 1 else 0) + Up(moles[1..])
  }

  lemma {:induction false} NoneUp(moles: seq<bool>)
    requires forall i :: 0 <= i < |moles| ==> !moles[i]
    ensures Up(moles) == 0
  {
    if moles != [] {
      NoneUp(moles[1..]);
    }
  }

  /** Setting one hole changes the count of raised moles by exactly that hole's change. */
  lemma {:induction false} UpUpdate(moles: seq<bool>, slot: nat, b: bool)
    requires slot < |moles|
    ensures Up(moles[slot := b]) + (if moles[slot] then 1 else 0) == Up(moles) + (if b then 1 else 0)
  {
    if slot == 0 {
      assert moles[slot := b][1..] == moles[1..];
    } else {
      UpUpdate(moles[1..], slot - 1, b);
      assert moles[slot := b][1..] == moles[1..][slot - 1 := b];
    }
  }

  /** The spawner raises the mole in `slot` (whether or not it was already up). */
  function Spawn(g: Game, slot: nat): (r: Game)
    requires slot < |g.moles|
    ensures |r.moles| == |g.moles| && r.moles[slot]
    ensures forall i :: 0 <= i < |g.moles| && i != slot ==> r.moles[i] == g.moles[i]
    ensures r.score == g.score && r.timeLeft == g.timeLeft
  {
    g.(moles := g.moles[slot := true])
  }

  /** The spawner's timeout lowers the mole in `slot` again, whether or not it was whacked meanwhile. */
  function Despawn(g: Game, slot: nat): (r: Game)
    requires slot < |g.moles|
    ensures |r.moles| == |g.moles| && !r.moles[slot]
    ensures forall i :: 0 <= i < |g.moles| && i != slot ==> r.moles[i] == g.moles[i]
    ensures r.score == g.score && r.timeLeft == g.timeLeft
  {
    g.(moles := g.moles[slot := false])
  }

  /** A click on a hole: a raised mole is knocked down for one point, an empty hole does nothing. */
  function Whack(g: Game, slot: nat): (r: Game)
    requires slot < |g.moles|
    ensures g.moles[slot] ==> |r.moles| == |g.moles| && r.timeLeft == g.timeLeft
    ensures g.moles[slot] ==> r.score == g.score + 1 && !r.moles[slot]
    ensures g.moles[slot] ==> forall i :: 0 <= i < |g.moles| && i != slot ==> r.moles[i] == g.moles[i]
    ensures !g.moles[slot] ==> r == g
  {
    if g.moles[slot] then g.(score := g.score + 1, moles := g.moles[slot := false]) else g
  }

  /** What a clock tick reports to the session. */
  datatype Verdict = Pending | Won | Lost

  datatype TickResult = TickResult(game: Game, verdict: Verdict)

  /**
   One second of the clock. At one second or less the clock stops at zero and
   reports a win when the score has reached the threshold, a loss otherwise.
   */
  function Tick(g: Game): (r: TickResult)
    ensures r.game.moles == g.moles && r.game.score == g.score
    ensures g.timeLeft > 1 ==> r.game.timeLeft == g.timeLeft - 1 && r.verdict == Pending
    ensures g.timeLeft <= 1 ==> r.game.timeLeft == 0 && r.verdict != Pending
    ensures r.verdict == Won <==> g.timeLeft <= 1 && g.score >= WinScore
    ensures r.verdict == Lost <==> g.timeLeft <= 1 && g.score < WinScore
  {
    if g.timeLeft <= 1 then
      TickResult(g.(timeLeft := 0), if g.score >= WinScore then Won else Lost)
    else
      TickResult(g.(timeLeft := g.timeLeft - 1), Pending)
  }

  /** The board after `n` clock ticks with no other event in between. */
  function Ticks(g: Game, n: nat): Game
    decreases n
  {
    if n == 0 then g else Ticks(Tick(g).game, n - 1)
  }

  lemma {:induction false} TicksCount(g: Game, n: nat)
    requires n < g.timeLeft
    ensures Ticks(g, n) == g.(timeLeft := g.timeLeft - n)
    decreases n
  {
    if n > 0 {
      TicksCount(Tick(g).game, n - 1);
    }
  }

  /**
   With `t >= 1` seconds on the clock, the first `t - 1` ticks report nothing and
   the `t`-th reports the verdict, decided by the score alone.
   */
  lemma ClockEndsOnTime(g: Game)
    requires g.timeLeft >= 1
    ensures forall n: nat :: n < g.timeLeft - 1 ==> Tick(Ticks(g, n)).verdict == Pending
    ensures Tick(Ticks(g, g.timeLeft - 1)).verdict == (if g.score >= WinScore then Won else Lost)
  {
    forall n: nat | n < g.timeLeft - 1
      ensures Tick(Ticks(g, n)).verdict == Pending
    {
      TicksCount(g, n);
    }
    TicksCount(g, g.timeLeft - 1);
  }

  /** From mount, the verdict comes on exactly the twentieth tick. */
  lemma MountedGameLastsTwentyTicks()
    ensures forall n: nat :: n < Duration - 1 ==> Tick(Ticks(Mount(), n)).verdict == Pending
    ensures Tick(Ticks(Mount(), Duration - 1)).verdict == Lost
  {
    ClockEndsOnTime(Mount());
  }

  /** One timer callback or click. */
  datatype Event = SpawnAt(slot: nat) | DespawnAt(slot: nat) | WhackAt(slot: nat) | Second

  predicate InBoard(g: Game, es: seq<Event>)
  {
    forall k :: 0 <= k < |es| && !es[k].Second? ==> es[k].slot < |g.moles|
  }

  function Apply(g: Game, e: Event): (r: Game)
    requires !e.Second? ==> e.slot < |g.moles|
    ensures |r.moles| == |g.moles|
  {
    match e
    case SpawnAt(i) => Spawn(g, i)
    case DespawnAt(i) => Despawn(g, i)
    case WhackAt(i) => Whack(g, i)
    case Second => Tick(g).game
  }

  function Run(g: Game, es: seq<Event>): (r: Game)
    requires InBoard(g, es)
    ensures |r.moles| == |g.moles|
    decreases |es|
  {
    if es == [] then g else Run(Apply(g, es[0]), es[1..])
  }

  function Spawns(es: seq<Event>): nat
  {
    if es == [] then 0 else (if es[0].SpawnAt? then 1 else 0) + Spawns(es[1..])
  }

  function Whacks(es: seq<Event>): nat
  {
    if es == [] then 0 else (if es[0].WhackAt? then 1 else 0) + Whacks(es[1..])
  }

  /**
   Every point is paid for by a mole that the spawner raised: the score plus the
   moles still up never exceeds what was there before plus the number of spawns.
   The score also never grows by more than the number of clicks.
   */
  lemma {:induction false} ScoreNeedsRaisedMoles(g: Game, es: seq<Event>)
    requires InBoard(g, es)
    ensures Run(g, es).score + Up(Run(g, es).moles) <= g.score + Up(g.moles) + Spawns(es)
    ensures g.score <= Run(g, es).score <= g.score + Whacks(es)
    decreases |es|
  {
    if es != [] {
      var h := Apply(g, es[0]);
      match es[0] {
        case SpawnAt(i) => UpUpdate(g.moles, i, true);
        case DespawnAt(i) => UpUpdate(g.moles, i, false);
        case WhackAt(i) => if g.moles[i] { UpUpdate(g.moles, i, false); }
        case Second =>
      }
      ScoreNeedsRaisedMoles(h, es[1..]);
    }
  }

  /** A whole game from mount: a win needs at least fifteen spawns and fifteen clicks. */
  lemma WinNeedsFifteenHits(es: seq<Event>)
    requires InBoard(Mount(), es)
    requires Run(Mount(), es).score >= WinScore
    ensures Spawns(es) >= WinScore && Whacks(es) >= WinScore
  {
    ScoreNeedsRaisedMoles(Mount(), es);
  }
}
