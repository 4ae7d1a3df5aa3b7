/**
 The catalog of verification mini-games and the selector that picks one the
 player has not completed yet.

 The selector draws `Math.floor(Math.random() * n)`; the random draw is an
 explicit `roll` in [0, 1) here, so every choice the program can make is one
 value of the parameter.
 */
module Catalog {
  import opened Sequences

  datatype GameId = Memory | Whack | Drag | Color

  datatype Difficulty = Easy | Medium | Hard

  datatype GameDef = GameDef(id: GameId, difficulty: Difficulty)

  /** The four catalog entries, in the order the program lists them. */
  function Games(): seq<GameDef>
  {
    [GameDef(Memory, Medium), GameDef(Whack, Easy), GameDef(Drag, Medium), GameDef(Color, Hard)]
  }

  /** No id occurs twice in `ids`. */
  predicate NoDuplicates(ids: seq<GameId>)
  {
    forall i, j :: 0 <= i < j < |ids| ==> ids[i] != ids[j]
  }

  /** The entries of `gs` whose id is not in `completed`. */
  function Remaining(gs: seq<GameDef>, completed: seq<GameId>): (r: seq<GameDef>)
    ensures |r| <= |gs|
    ensures forall g :: g in r <==> g in gs && g.id !in completed
  {
    if gs == [] then []
    else if gs[0].id in completed then Remaining(gs[1..], completed)
    else [gs[0]] + Remaining(gs[1..], completed)
  }

  /** Filtering keeps a list whose ids are all still open. */
  lemma {:induction false} RemainingKeepsOpen(gs: seq<GameDef>, completed: seq<GameId>)
    requires forall k :: 0 <= k < |gs| ==> gs[k].id !in completed
    ensures Remaining(gs, completed) == gs
  {
    if gs != [] {
      RemainingKeepsOpen(gs[1..], completed);
    }
  }

  /** The catalog games still open to the player. */
  function Available(completed: seq<GameId>): seq<GameDef>
  {
    Remaining(Games(), completed)
  }

  /** Scaling a draw from [0, 1) by a positive `m` lands in [0, m). */
  lemma ScaleBelow(roll: real, m: real)
    requires 0.0 <= roll < 1.0 && m > 0.0
    ensures 0.0 <= roll * m < m
  {
    assert m - roll * m == (1.0 - roll) * m;
    assert (1.0 - roll) * m > 0.0;
  }

  /** The floor of a real in [0, n) is a position below `n`, within one of the real. */
  lemma FloorBelow(x: real, n: nat)
    requires 0.0 <= x < n as real
    ensures 0 <= x.Floor < n
    ensures x.Floor as real <= x < x.Floor as real + 1.0
  {
  }

  /** `Math.floor(roll * n)`: the position a uniform draw `roll` selects among `n` entries. */
  function PickIndex(n: nat, roll: real): (i: nat)
    requires n > 0 && 0.0 <= roll < 1.0
    ensures i < n
    ensures i as real <= roll * n as real < i as real + 1.0
  {
    var x := roll * n as real;
    ScaleBelow(roll, n as real);
    FloorBelow(x, n);
    x.Floor
  }

  /** Every position can be drawn: the roll `i / n` selects entry `i`. */
  lemma PickIndexCoversAll(n: nat, i: nat)
    requires i < n
    ensures 0.0 <= i as real / n as real < 1.0
    ensures PickIndex(n, i as real / n as real) == i
  {
    var roll := i as real / n as real;
    assert roll * n as real == i as real;
  }

  /** While fewer ids are completed than the catalog holds, some game remains to be played. */
  lemma AvailableNonEmpty(completed: seq<GameId>)
    requires |completed| < |Games()|
    ensures Available(completed) != []
  {
    ElementsBound(completed);
    var played := set x | x in completed;
    var all := {Memory, Whack, Drag, Color};
    assert |all| == 4;
    assert !(all <= played);
    var id :| id in all && id !in played;
    var k := match id case Memory => 0 case Whack => 1 case Drag => 2 case Color => 3;
    assert Games()[k].id == id;
    assert Games()[k] in Available(completed);
  }
}
