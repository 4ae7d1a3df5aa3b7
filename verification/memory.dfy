/**
 The memory-match mini-game: sixteen cards holding eight symbols twice each,
 turned over two at a time; a pair of equal symbols stays matched, a pair of
 different symbols waits for a separate reset event. A 30-second countdown
 runs beside it.

 Timers are events here: the 1000 ms mismatch reset is `ResetFlips`, the
 one-second countdown step is `Tick`, and the countdown effect's decision is
 `CountdownEffect`. The shuffle is an explicit permutation of positions.
 */
module MemoryMatch {
  import opened Shuffle
  import opened Sequences

  /** The eight card faces, in the program's order: star, heart, game pad, target, palette, circus tent, masks, music score. */
  datatype Symbol = Star | Heart | Gamepad | Target | Palette | Circus | Masks | Music

  function Symbols(): seq<Symbol>
  {
    [Star, Heart, Gamepad, Target, Palette, Circus, Masks, Music]
  }

  /** Each symbol twice: the list the program shuffles. */
  function Doubled(): seq<Symbol>
  {
    Symbols() + Symbols()
  }

  /** The number of symbols, `symbols.length` in the program. */
  const PairCount: nat := 8
  /** The number of cards, `symbols.length * 2`. */
  const DeckSize: nat := 2 * PairCount
  const TimeLimit := 30

  lemma SymbolCounts()
    ensures |Symbols()| == PairCount && |Doubled()| == DeckSize
  {
  }

  datatype Card = Card(id: nat, symbol: Symbol)

  datatype Game = Game(cards: seq<Card>, flipped: seq<nat>, matched: seq<nat>, timeLeft: int)

  /** The faces of a row of cards. */
  function Faces(cards: seq<Card>): (r: seq<Symbol>)
    ensures |r| == |cards|
    ensures forall i :: 0 <= i < |cards| ==> r[i] == cards[i].symbol
  {
    if cards == [] then [] else [cards[0].symbol] + Faces(cards[1..])
  }

  /** Every symbol occurs exactly once in the symbol list. */
  lemma SymbolsOnce()
    ensures forall s :: multiset(Symbols())[s] == 1
  {
    forall s
      ensures multiset(Symbols())[s] == 1
    {
      SymbolOnce(s);
    }
  }

  lemma SymbolOnce(s: Symbol)
    ensures multiset(Symbols())[s] == 1
  {
    SymbolsDistinct();
    DistinctCount(Symbols(), s);
    assert Symbols()[Position(s)] == s;
  }

  lemma SymbolsDistinct()
    ensures Distinct(Symbols())
  {
  }

  /** Where a symbol sits in the symbol list. */
  function Position(s: Symbol): (i: nat)
    ensures i < |Symbols()| && Symbols()[i] == s
  {
    match s
    case Star => 0
    case Heart => 1
    case Gamepad => 2
    case Target => 3
    case Palette => 4
    case Circus => 5
    case Masks => 6
    case Music => 7
  }

  /** Every symbol occurs exactly twice in the list that is shuffled. */
  lemma DoubledCounts()
    ensures |Doubled()| == DeckSize
    ensures forall s :: multiset(Doubled())[s] == 2
  {
    SymbolsOnce();
    assert multiset(Doubled()) == multiset(Symbols()) + multiset(Symbols());
  }

  /** Cards numbered by position, showing the given faces. */
  function Number(faces: seq<Symbol>): (cards: seq<Card>)
    ensures |cards| == |faces|
    ensures forall i :: 0 <= i < |cards| ==> cards[i] == Card(i, faces[i])
    ensures Faces(cards) == faces
  {
    var cards := seq(|faces|, (i: nat) requires i < |faces| => Card(i, faces[i]));
    assert Faces(cards) == faces;
    cards
  }

  /** The dealt faces are the doubled list rearranged. */
  lemma DealFaces(order: seq<nat>)
    requires IsShuffle(order, DeckSize)
    ensures Within(order, |Doubled()|)
    ensures multiset(Gather(Doubled(), order)) == multiset(Doubled())
  {
    SymbolCounts();
    GatherShuffle(Doubled(), order);
  }

  /** `initializeGame`: deal the doubled symbol list in the shuffled order `order`, numbering the cards 0..15, and restart the clock. */
  function Deal(order: seq<nat>): (g: Game)
    requires IsShuffle(order, DeckSize)
    ensures |g.cards| == DeckSize
    ensures forall i :: 0 <= i < |g.cards| ==> g.cards[i].id == i
    ensures g.flipped == [] && g.matched == [] && g.timeLeft == TimeLimit
  {
    SymbolCounts();
    ShuffleInRange(order, DeckSize);
    Game(Number(Gather(Doubled(), order)), [], [], TimeLimit)
  }

  /** The faces of a deal are the doubled list rearranged: each symbol on exactly two cards. */
  lemma DealPermutes(order: seq<nat>)
    requires IsShuffle(order, DeckSize)
    ensures multiset(Faces(Deal(order).cards)) == multiset(Doubled())
    ensures forall s :: multiset(Faces(Deal(order).cards))[s] == 2
  {
    DealFaces(order);
    DoubledCounts();
  }

  /** Sixteen cards, numbered by position. */
  predicate CardsNumbered(g: Game)
  {
    |g.cards| == DeckSize && forall i :: 0 <= i < |g.cards| ==> g.cards[i].id == i
  }

  /** At most two distinct cards face up, none of them matched; two face up are always a mismatch waiting for the reset. */
  predicate FlipsWellFormed(g: Game)
    requires CardsNumbered(g)
  {
    && Within(g.flipped, DeckSize) && Distinct(g.flipped) && |g.flipped| <= 2
    && (forall i :: 0 <= i < |g.flipped| ==> g.flipped[i] !in g.matched)
    && (|g.flipped| == 2 ==> g.cards[g.flipped[0]].symbol != g.cards[g.flipped[1]].symbol)
  }

  /** Matched cards are distinct and were recorded two at a time, each pair showing one symbol. */
  predicate MatchesPaired(g: Game)
    requires CardsNumbered(g)
  {
    && Within(g.matched, DeckSize) && Distinct(g.matched)
    && |g.matched| % 2 == 0
    && (forall k :: 0 <= k < |g.matched| - 1 && k % 2 == 0 ==>
          g.cards[g.matched[k]].symbol == g.cards[g.matched[k + 1]].symbol)
  }

  /** The invariant of a dealt game. */
  predicate Valid(g: Game)
  {
    CardsNumbered(g) && FlipsWellFormed(g) && MatchesPaired(g) && 0 <= g.timeLeft <= TimeLimit
  }

  lemma DealValid(order: seq<nat>)
    requires IsShuffle(order, DeckSize)
    ensures Valid(Deal(order))
  {
  }

  datatype ClickResult = ClickResult(game: Game, won: bool)

  /** `handleCardClick(id)`; `won` says the win callback is scheduled. */
  function Click(g: Game, id: nat): (r: ClickResult)
    requires Valid(g) && id < |g.cards|
    // ignored while two cards are up, or for a card that is up or matched
    ensures |g.flipped| == 2 || id in g.flipped || id in g.matched ==> r == ClickResult(g, false)
    // otherwise the card turns up; a second card either completes a pair or stays up beside the first
    ensures |g.flipped| == 0 && id !in g.matched ==> r == ClickResult(g.(flipped := [id]), false)
    ensures |g.flipped| == 1 && id != g.flipped[0] && id !in g.matched ==>
      if g.cards[g.flipped[0]].symbol == g.cards[id].symbol
      then r.game == g.(matched := g.matched + [g.flipped[0], id], flipped := [])
      else r == ClickResult(g.(flipped := g.flipped + [id]), false)
    ensures Valid(r.game) && r.game.cards == g.cards && r.game.timeLeft == g.timeLeft
    ensures r.won <==> r.game.matched != g.matched && |r.game.matched| == DeckSize
  {
    if |g.flipped| == 2 || id in g.flipped || id in g.matched then ClickResult(g, false)
    else
      var flipped := g.flipped + [id];
      if |flipped| == 2 then
        var first, second := flipped[0], flipped[1];
        if g.cards[first].symbol == g.cards[second].symbol then
          var g' := g.(matched := g.matched + [first, second], flipped := []);
          MatchKeepsValid(g, id);
          ClickResult(g', |g.matched| + 2 == DeckSize)
        else
          FlipKeepsValid(g, id);
          ClickResult(g.(flipped := flipped), false)
      else
        FlipKeepsValid(g, id);
        ClickResult(g.(flipped := flipped), false)
  }

  /** Turning up a card that is neither up nor matched keeps the game valid, unless it completes a pair. */
  lemma FlipKeepsValid(g: Game, id: nat)
    requires Valid(g) && id < DeckSize && |g.flipped| < 2 && id !in g.flipped && id !in g.matched
    requires |g.flipped| == 1 ==> g.cards[g.flipped[0]].symbol != g.cards[id].symbol
    ensures Valid(g.(flipped := g.flipped + [id]))
  {
  }

  /** Completing a pair of equal symbols records both cards as matched and keeps the game valid. */
  lemma MatchKeepsValid(g: Game, id: nat)
    requires Valid(g) && id < DeckSize && |g.flipped| == 1 && id != g.flipped[0] && id !in g.matched
    requires g.cards[g.flipped[0]].symbol == g.cards[id].symbol
    ensures Valid(g.(matched := g.matched + [g.flipped[0], id], flipped := []))
  {
    var a, m := g.flipped[0], g.matched + [g.flipped[0], id];
    assert a !in g.matched;
    AppendTwo(g.matched, a, id, DeckSize);
    var g' := g.(matched := m, flipped := []);
    assert CardsNumbered(g');
    assert FlipsWellFormed(g');
    forall k | 0 <= k < |m| - 1 && k % 2 == 0
      ensures g'.cards[m[k]].symbol == g'.cards[m[k + 1]].symbol
    {
      if k < |g.matched| {
        assert k + 1 < |g.matched|;
      }
    }
  }

  /** Appending two new, different positions below `n` keeps a list of positions distinct and below `n`. */
  lemma AppendTwo(xs: seq<nat>, a: nat, b: nat, n: nat)
    requires Distinct(xs) && Within(xs, n) && a < n && b < n
    requires a !in xs && b !in xs && a != b
    ensures Distinct(xs + [a, b]) && Within(xs + [a, b], n)
    ensures forall k :: 0 <= k < |xs| ==> (xs + [a, b])[k] == xs[k]
    ensures (xs + [a, b])[|xs|] == a && (xs + [a, b])[|xs| + 1] == b
  {
  }

  /** The timer set after a mismatch fires: both cards turn back face down. */
  function ResetFlips(g: Game): (g': Game)
    requires Valid(g)
    ensures Valid(g') && g'.flipped == []
    ensures g'.cards == g.cards && g'.matched == g.matched && g'.timeLeft == g.timeLeft
  {
    g.(flipped := [])
  }

  // ---------------------------------------------------------------------
  // How far matching can go
  // ---------------------------------------------------------------------

  /** The positions a list names. */
  function Elements(xs: seq<nat>): set<nat>
  {
    set x: nat | x in xs
  }

  lemma {:induction false} DistinctCardinality(xs: seq<nat>)
    requires Distinct(xs)
    ensures |Elements(xs)| == |xs|
  {
    if xs != [] {
      DistinctCardinality(xs[1..]);
      assert xs[0] !in Elements(xs[1..]);
      assert Elements(xs) == {xs[0]} + Elements(xs[1..]);
    }
  }

  /** Pigeonhole: distinct card positions below `n` are at most `n`, and exactly `n` of them name every card. */
  lemma Pigeonhole(xs: seq<nat>, n: nat)
    requires Distinct(xs) && Within(xs, n)
    ensures |xs| <= n
    ensures |xs| == n ==> forall v :: 0 <= v < n ==> v in xs
  {
    var below := Elements(Range(n));
    DistinctCardinality(xs);
    DistinctCardinality(Range(n));
    assert Elements(xs) <= below by {
      forall x | x in Elements(xs)
        ensures x in below
      {
        assert Range(n)[x] == x;
      }
    }
    if |xs| == n {
      assert |below - Elements(xs)| == |below| - |Elements(xs)| == 0;
      forall v | 0 <= v < n
        ensures v in xs
      {
        assert Range(n)[v] == v;
        assert v in below;
      }
    }
  }

  /** At most the sixteen cards can be matched. */
  lemma MatchedBound(g: Game)
    requires Valid(g)
    ensures |g.matched| <= DeckSize
  {
    Pigeonhole(g.matched, DeckSize);
  }

  /** Once all sixteen cards are matched every click is ignored, so the win callback is scheduled at most once. */
  lemma WonGameIgnoresClicks(g: Game, id: nat)
    requires Valid(g) && |g.matched| == DeckSize && id < |g.cards|
    ensures Click(g, id) == ClickResult(g, false)
  {
    Pigeonhole(g.matched, DeckSize);
  }

  /** Clicking the two cards of a pair that is already matched changes nothing. */
  lemma RematchIsNoOp(g: Game, a: nat, b: nat)
    requires Valid(g) && a < |g.cards| && b < |g.cards|
    requires a in g.matched && b in g.matched
    ensures Click(g, a) == ClickResult(g, false)
    ensures Click(Click(g, a).game, b) == ClickResult(g, false)
  {
  }

  // ---------------------------------------------------------------------
  // The countdown
  // ---------------------------------------------------------------------

  /** What the countdown effect does when it runs. */
  datatype TimerAction = ScheduleTick | ReportGameOver | Idle

  /** The countdown effect as written: it compares the matched count with the number of symbols (8), not of cards (16). */
  function CountdownEffect(g: Game): (a: TimerAction)
    ensures a == ScheduleTick <==> g.timeLeft > 0 && |g.matched| < PairCount
    ensures a == ReportGameOver <==> g.timeLeft == 0
  {
    if g.timeLeft > 0 && |g.matched| < PairCount then ScheduleTick
    else if g.timeLeft == 0 then ReportGameOver
    else Idle
  }

  /** The scheduled second passes. A re-run of the effect cancels a pending tick, so a tick fires only while the effect schedules one. */
  function Tick(g: Game): (g': Game)
    requires Valid(g) && CountdownEffect(g) == ScheduleTick
    ensures Valid(g')
    ensures g'.timeLeft == g.timeLeft - 1 && g'.timeLeft >= 0
    ensures g'.cards == g.cards && g'.flipped == g.flipped && g'.matched == g.matched
  {
    g.(timeLeft := g.timeLeft - 1)
  }

  /**
   As written, the clock stops once four pairs (eight cards) are matched: the
   effect goes idle although eight cards are still face down, no click can
   restart it, and the loss is never reported however long the player waits.
   */
  lemma CountdownStallsAfterFourPairs(g: Game, id: nat)
    requires Valid(g) && id < |g.cards|
    requires |g.matched| >= PairCount && g.timeLeft > 0
    ensures CountdownEffect(g) == Idle
    ensures CountdownEffect(Click(g, id).game) == Idle
  {
  }



  /** Any `n` distinct positions below `n` form a shuffle. */
  lemma DistinctIsShuffle(order: seq<nat>, n: nat)
    requires |order| == n && Distinct(order) && Within(order, n)
    ensures IsShuffle(order, n)
  {
    Pigeonhole(order, n);
    forall v: nat
      ensures multiset(order)[v] == multiset(Range(n))[v]
    {
      DistinctCount(order, v);
      DistinctCount(Range(n), v);
      if v < n {
        assert Range(n)[v] == v;
      }
    }
    assert multiset(order) == multiset(Range(n));
  }

  /** A shuffle that lays each symbol's two cards side by side: position 2k takes the first copy of symbol k, position 2k+1 the second. */
  function PairOrder(): (order: seq<nat>)
    ensures |order| == DeckSize
    ensures forall i :: 0 <= i < DeckSize ==> order[i] == if i % 2 == 0 then i / 2 else PairCount + i / 2
  {
    seq(DeckSize, (i: nat) => if i % 2 == 0 then i / 2 else PairCount + i / 2)
  }

  lemma PairOrderIsShuffle()
    ensures IsShuffle(PairOrder(), DeckSize)
  {
    DistinctIsShuffle(PairOrder(), DeckSize);
  }

  /** A shuffle that puts the two copies of each symbol next to each other, at positions 2j and 2j+1. */
  predicate PairsSideBySide(order: seq<nat>)
  {
    IsShuffle(order, DeckSize) && forall j :: 0 <= j < PairCount ==> PairedAt(order, j)
  }

  /** The shuffle sends positions `2j` and `2j + 1` to two entries of the doubled list with the same symbol. */
  predicate PairedAt(order: seq<nat>, j: nat)
  {
    && 2 * j + 1 < |order| && order[2 * j] < |Doubled()| && order[2 * j + 1] < |Doubled()|
    && Doubled()[order[2 * j]] == Doubled()[order[2 * j + 1]]
  }

  /** `PairOrder` is such a shuffle. */
  lemma PairOrderSideBySide()
    ensures PairsSideBySide(PairOrder())
  {
    PairOrderIsShuffle();
    PairOrderPairs();
  }

  /** Card `i` of a deal shows the entry of the doubled list that the shuffle moved to position `i`. */
  lemma DealShows(order: seq<nat>)
    requires IsShuffle(order, DeckSize)
    ensures forall i :: 0 <= i < DeckSize ==> order[i] < |Doubled()| && Deal(order).cards[i].symbol == Doubled()[order[i]]
  {
    SymbolCounts();
    ShuffleInRange(order, DeckSize);
    GatherPicks(Doubled(), order);
  }

  /** `PairOrder` sends positions 2j and 2j+1 to the two copies of the j-th symbol. */
  lemma PairOrderPairs()
    ensures forall j :: 0 <= j < PairCount ==> PairedAt(PairOrder(), j)
  {
    forall j | 0 <= j < PairCount
      ensures PairedAt(PairOrder(), j)
    {
      PairOrderPair(j);
    }
  }

  lemma PairOrderPair(j: nat)
    requires j < PairCount
    ensures PairedAt(PairOrder(), j)
  {
    SamePairHalf(j);
    assert PairOrder()[2 * j] == j && PairOrder()[2 * j + 1] == PairCount + j;
  }

  lemma SamePairHalf(j: nat)
    ensures (2 * j) / 2 == j == (2 * j + 1) / 2
  {
  }

  /** Positions `2j` and `2j + 1` hold cards with the same symbol. */
  predicate SamePair(cards: seq<Card>, j: nat)
  {
    2 * j + 1 < |cards| && cards[2 * j].symbol == cards[2 * j + 1].symbol
  }

  /**
   Click the two cards of each of the first `k` pairs of positions, in order. On
   a fresh deck whose first `k` pairs of positions hold equal symbols, this
   matches exactly those cards and leaves nothing face up.
   */
  function MatchPairs(g: Game, k: nat): (r: Game)
    requires Valid(g) && k <= PairCount
    ensures Valid(r) && r.cards == g.cards && r.timeLeft == g.timeLeft
    ensures g.flipped == [] && g.matched == [] && (forall j :: 0 <= j < k ==> SamePair(g.cards, j)) ==>
      r.flipped == [] && r.matched == Range(2 * k)
    decreases k
  {
    if k == 0 then
      assert Range(0) == [];
      g
    else
      var h := MatchPairs(g, k - 1);
      var i := 2 * (k - 1);
      if h.flipped == [] && h.matched == Range(i) && SamePair(g.cards, k - 1) then
        ClickNextPair(h, i);
        Click(Click(h, i).game, i + 1).game
      else
        Click(Click(h, i).game, i + 1).game
  }

  /** With the cards before position `i` matched, clicking the equal cards `i` and `i + 1` matches them too. */
  lemma ClickNextPair(g: Game, i: nat)
    requires i + 1 < DeckSize && Valid(g) && g.flipped == [] && g.matched == Range(i)
    requires g.cards[i].symbol == g.cards[i + 1].symbol
    ensures Click(Click(g, i).game, i + 1).game == g.(matched := Range(i + 2))
  {
    assert i !in g.matched;
    var g1 := Click(g, i).game;
    assert g1 == g.(flipped := [i]);
    assert i + 1 !in g1.matched;
    RangeExtend(i);
  }

  lemma RangeExtend(n: nat)
    ensures Range(n) + [n, n + 1] == Range(n + 2)
  {
    var r := Range(n) + [n, n + 1];
    forall i | 0 <= i < n + 2
      ensures r[i] == Range(n + 2)[i]
    {
    }
  }

  /** A deal along a shuffle that lays pairs side by side shows equal symbols at positions 2j and 2j+1. */
  lemma PairedDeal(order: seq<nat>)
    requires PairsSideBySide(order)
    ensures forall j :: 0 <= j < PairCount ==> SamePair(Deal(order).cards, j)
  {
    DealShows(order);
    forall j | 0 <= j < PairCount
      ensures SamePair(Deal(order).cards, j)
    {
      assert PairedAt(order, j);
    }
  }

  /**
   The stall is reachable: deal with any shuffle that lays pairs side by side
   (`PairOrder` is one) and match the first four pairs before the first second
   passes. Eight cards remain face down, the clock shows 30 seconds, and the
   countdown is idle.
   */
  lemma StalledCountdownExample(order: seq<nat>)
    requires PairsSideBySide(order)
    ensures var g := MatchPairs(Deal(order), 4);
      && Valid(g)
      && DeckSize - |g.matched| == 8
      && g.timeLeft == TimeLimit
      && CountdownEffect(g) == Idle
  {
    DealValid(order);
    PairedDeal(order);
  }

  /** The countdown effect as evidently intended: it keeps running until all sixteen cards are matched. */
  function CountdownEffectIntended(g: Game): (a: TimerAction)
    requires Valid(g)
    ensures a == ScheduleTick <==> g.timeLeft > 0 && exists v :: 0 <= v < DeckSize && v !in g.matched
    ensures a == ReportGameOver <==> g.timeLeft == 0
    ensures a == Idle <==> g.timeLeft > 0 && forall v :: 0 <= v < DeckSize ==> v in g.matched
  {
    Pigeonhole(g.matched, DeckSize);
    AllPositionsCovered(g.matched);
    if g.timeLeft > 0 && |g.matched| < DeckSize then ScheduleTick
    else if g.timeLeft == 0 then ReportGameOver
    else Idle
  }

  /** A list of positions that names every card holds at least sixteen entries. */
  lemma AllPositionsCovered(xs: seq<nat>)
    ensures (forall v :: 0 <= v < DeckSize ==> v in xs) ==> |xs| >= DeckSize
  {
    if forall v :: 0 <= v < DeckSize ==> v in xs {
      var below := Elements(Range(DeckSize));
      DistinctCardinality(Range(DeckSize));
      assert below <= Elements(xs) by {
        forall x | x in below
          ensures x in Elements(xs)
        {
          assert x in Range(DeckSize);
        }
      }
      assert |Elements(xs)| == |below| + |Elements(xs) - below|;
      ElementsBound(xs);
      assert Elements(xs) == set x | x in xs;
    }
  }

  /** One intended tick. */
  function TickIntended(g: Game): (g': Game)
    requires Valid(g) && CountdownEffectIntended(g) == ScheduleTick
    ensures Valid(g') && g'.timeLeft == g.timeLeft - 1
    ensures g'.cards == g.cards && g'.flipped == g.flipped && g'.matched == g.matched
  {
    g.(timeLeft := g.timeLeft - 1)
  }

  /** The game after `n` intended ticks with no click in between, while cards are still unmatched. */
  function TicksIntended(g: Game, n: nat): (r: Game)
    requires Valid(g) && |g.matched| < DeckSize && n <= g.timeLeft
    ensures Valid(r) && r.cards == g.cards && r.flipped == g.flipped && r.matched == g.matched
    decreases n
  {
    if n == 0 then g
    else
      assert CountdownEffectIntended(g) == ScheduleTick;
      TicksIntended(TickIntended(g), n - 1)
  }

  /**
   With the intended effect and no further match, every one of the `timeLeft`
   seconds schedules the next tick, and the tick that brings the clock to 0
   leaves a game that reports the loss.
   */
  lemma {:induction false} IntendedCountdownReportsLoss(g: Game)
    requires Valid(g) && |g.matched| < DeckSize
    ensures forall n: nat :: n < g.timeLeft ==> CountdownEffectIntended(TicksIntended(g, n)) == ScheduleTick
    ensures TicksIntended(g, g.timeLeft).timeLeft == 0
    ensures CountdownEffectIntended(TicksIntended(g, g.timeLeft)) == ReportGameOver
    decreases g.timeLeft
  {
    if g.timeLeft > 0 {
      assert CountdownEffectIntended(g) == ScheduleTick;
      var h := TickIntended(g);
      IntendedCountdownReportsLoss(h);
      assert TicksIntended(g, g.timeLeft) == TicksIntended(h, h.timeLeft);
      forall n: nat | n < g.timeLeft
        ensures CountdownEffectIntended(TicksIntended(g, n)) == ScheduleTick
      {
        if n > 0 {
          assert TicksIntended(g, n) == TicksIntended(h, n - 1);
        }
      }
    }
  }
}
