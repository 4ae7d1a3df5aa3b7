/**
 The human-verification session: score, lives, the completed games, the game
 being played, the phase and the win popup, with the handlers that change
 them and the rule that decides which screen is shown.

 The 1500 ms delays the handlers put before returning to the intro screen or
 raising the popup are folded into the transition. Callbacks to the page that
 hosts the session (`onWin`, `onClose`) are returned as an `Outcome` value.
 */
module Session {
  import opened Catalog

  const InitialLives := 3
  const PointsPerWin := 100
  /** Completed games needed to pass the verification. */
  const WinThreshold := 2

  datatype Status = Intro | Playing | GameOver

  datatype Option<T> = None | Some(value: T)

  datatype Session = Session(
    score: int,
    lives: int,
    completed: seq<GameId>,
    current: Option<GameDef>,
    status: Status,
    winPopup: bool)

  /** The state the component mounts with. */
  function Init(): Session
  {
    Session(0, InitialLives, [], None, Intro, false)
  }

  /** The "Start Challenge" handler: pick an unplayed game with the draw `roll`, or raise the win popup when none is left. */
  function Start(s: Session, roll: real): (t: Session)
    requires 0.0 <= roll < 1.0
    ensures Available(s.completed) == [] ==> t == s.(winPopup := true)
    ensures Available(s.completed) != [] ==>
      && t.current.Some?
      && t.current.value in Games()
      && t.current.value.id !in s.completed
      && t == s.(current := t.current, status := Playing)
  {
    var open := Available(s.completed);
    if |open| == 0 then s.(winPopup := true)
    else s.(current := Some(open[PickIndex(|open|, roll)]), status := Playing)
  }

  /** The mini-game reported a win. */
  function Win(s: Session): (t: Session)
    requires s.current.Some?
    ensures t.score == s.score + PointsPerWin && t.lives == s.lives
    ensures t.completed == s.completed + [s.current.value.id]
    ensures |t.completed| >= WinThreshold ==> t == s.(score := t.score, completed := t.completed, winPopup := true)
    ensures |t.completed| < WinThreshold ==>
      t == s.(score := t.score, completed := t.completed, current := None, status := Intro)
  {
    var s' := s.(score := s.score + PointsPerWin, completed := s.completed + [s.current.value.id]);
    if |s.completed| + 1 >= WinThreshold then s'.(winPopup := true)
    else s'.(current := None, status := Intro)
  }

  /** The mini-game reported a loss. */
  function Lose(s: Session): (t: Session)
    ensures t.lives == s.lives - 1
    ensures t.score == s.score && t.completed == s.completed && t.winPopup == s.winPopup
    ensures t.lives <= 0 ==> t.status == GameOver && t.current == s.current
    ensures t.lives > 0 ==> t.status == Intro && t.current.None?
  {
    var lives := s.lives - 1;
    if lives <= 0 then s.(lives := lives, status := GameOver)
    else s.(lives := lives, current := None, status := Intro)
  }

  /** "Try Again": everything but the popup flag goes back to its mount value. */
  function Reset(s: Session): (t: Session)
    ensures t.winPopup == s.winPopup
    ensures t.(winPopup := false) == Init()
  {
    Session(0, InitialLives, [], None, Intro, s.winPopup)
  }

  datatype View = GameOverView | IntroView | GameView(game: GameDef)

  /** The screen the component renders. */
  function Screen(s: Session): (v: View)
    ensures v.GameOverView? <==> s.status == GameOver
    ensures v.IntroView? <==> s.status != GameOver && s.current.None?
    ensures v.GameView? ==> s.current == Some(v.game)
  {
    if s.status == GameOver then GameOverView
    else if s.current.None? then IntroView
    else GameView(s.current.value)
  }

  datatype Engine = MemoryEngine | WhackEngine

  /** The mini-game a game screen runs: the two catalog entries without their own engine fall back to memory match. */
  function EngineFor(id: GameId): (e: Engine)
    ensures e == WhackEngine <==> id == Whack
  {
    match id
    case Whack => WhackEngine
    case _ => MemoryEngine
  }

  // ---------------------------------------------------------------------
  // Events and runs
  // ---------------------------------------------------------------------

  /** What the session tells the page hosting it. */
  datatype Outcome = Stay | Verified | Closed

  datatype Event =
    | StartGame(roll: real)   // "Start Challenge" on the intro screen
    | GameWon                 // the running mini-game calls onWin
    | GameLost                // the running mini-game calls onGameOver
    | Retry                   // "Try Again" on the game-over screen
    | ContinuePopup           // "Continue" on the win popup
    | ClosePopup              // "Close" on the win popup
    | Exit                    // a close button of the intro, game or game-over screen

  datatype Transition = Transition(next: Session, out: Outcome)

  /** An event can only come from something on screen; the win popup covers the screen beneath it. */
  predicate Enabled(s: Session, e: Event)
  {
    match e
    case StartGame(roll) => !s.winPopup && Screen(s).IntroView? && 0.0 <= roll < 1.0
    case GameWon => !s.winPopup && Screen(s).GameView?
    case GameLost => !s.winPopup && Screen(s).GameView?
    case Retry => !s.winPopup && Screen(s).GameOverView?
    case ContinuePopup => s.winPopup
    case ClosePopup => s.winPopup
    case Exit => !s.winPopup
  }

  /** One event. An event that cannot happen in state `s` leaves it alone. */
  function Step(s: Session, e: Event): (t: Transition)
    ensures !Enabled(s, e) ==> t == Transition(s, Stay)
    ensures t.out == Verified <==> Enabled(s, e) && e == ContinuePopup
    ensures t.out == Closed <==> Enabled(s, e) && (e == ClosePopup || e == Exit)
  {
    if !Enabled(s, e) then Transition(s, Stay)
    else match e
      case StartGame(roll) => Transition(Start(s, roll), Stay)
      case GameWon => Transition(Win(s), Stay)
      case GameLost => Transition(Lose(s), Stay)
      case Retry => Transition(Reset(s), Stay)
      case ContinuePopup => Transition(s.(winPopup := false), Verified)
      case ClosePopup => Transition(s.(winPopup := false), Closed)
      case Exit => Transition(s, Closed)
  }

  /** Feed events until one of them unmounts the session (its outcome is not `Stay`). */
  function Run(s: Session, es: seq<Event>): Transition
    decreases |es|
  {
    if es == [] then Transition(s, Stay)
    else
      var t := Step(s, es[0]);
      if t.out != Stay then t else Run(t.next, es[1..])
  }

  // ---------------------------------------------------------------------
  // The session invariant
  // ---------------------------------------------------------------------

  /** What holds in every state the session can reach. */
  predicate Valid(s: Session)
  {
    && 0 <= s.lives <= InitialLives
    && (s.lives == 0 <==> s.status == GameOver)
    && (s.status == Intro <==> s.current.None?)
    && (s.current.Some? ==> s.current.value in Games())
    && NoDuplicates(s.completed)
    && |s.completed| <= WinThreshold
    && s.score == PointsPerWin * |s.completed|
    && (s.winPopup ==> |s.completed| == WinThreshold)
    && (|s.completed| == WinThreshold ==>
          s.status == Playing && s.current.Some? && s.current.value.id in s.completed)
    && (|s.completed| < WinThreshold && s.current.Some? ==> s.current.value.id !in s.completed)
  }

  /** The session has not yet been passed: fewer than two wins, or the popup still awaiting an answer. */
  predicate Open(s: Session)
  {
    s.winPopup || |s.completed| < WinThreshold
  }

  lemma InitValid()
    ensures Valid(Init()) && Open(Init())
  {
  }

  /** Every enabled event keeps the invariant, and an event that does not unmount the session keeps it open. */
  lemma StepValid(s: Session, e: Event)
    requires Valid(s) && Open(s)
    ensures Valid(Step(s, e).next)
    ensures Step(s, e).out == Stay ==> Open(Step(s, e).next)
  {
    if Enabled(s, e) {
      match e
      case StartGame(roll) =>
        AvailableNonEmpty(s.completed);
      case GameWon =>
        var t := Win(s);
        assert t.completed == s.completed + [s.current.value.id];
        assert NoDuplicates(t.completed);
      case _ =>
    }
  }

  /** Every state a run reaches from a valid, open state is valid. */
  lemma {:induction false} RunValid(s: Session, es: seq<Event>)
    requires Valid(s) && Open(s)
    ensures Valid(Run(s, es).next)
    ensures Run(s, es).out == Stay ==> Open(Run(s, es).next)
    decreases |es|
  {
    if es != [] {
      StepValid(s, es[0]);
      var t := Step(s, es[0]);
      if t.out == Stay {
        RunValid(t.next, es[1..]);
      }
    }
  }

  /** In a reachable state the player can always start a game: the "no game left" branch of `Start` is never taken. */
  lemma StartAlwaysFindsGame(s: Session, roll: real)
    requires Valid(s) && Open(s) && Enabled(s, StartGame(roll))
    ensures Available(s.completed) != []
    ensures Start(s, roll).current.Some? && Start(s, roll).current.value.id !in s.completed
  {
    AvailableNonEmpty(s.completed);
  }

  /** Every open catalog game can be drawn: some roll makes `Start` pick it. */
  lemma StartReachesEveryOpenGame(s: Session, g: GameDef)
    requires g in Available(s.completed)
    ensures exists roll: real :: 0.0 <= roll < 1.0 && Start(s, roll).current == Some(g)
  {
    var open := Available(s.completed);
    var k :| 0 <= k < |open| && open[k] == g;
    PickIndexCoversAll(|open|, k);
    var roll := k as real / |open| as real;
    assert Start(s, roll).current == Some(g);
  }

  /** The screen agrees with the phase, and lives run out exactly on the game-over screen. */
  lemma ScreenFollowsPhase(s: Session)
    requires Valid(s)
    ensures Screen(s).IntroView? <==> s.status == Intro
    ensures Screen(s).GameView? <==> s.status == Playing
    ensures Screen(s).GameOverView? <==> s.lives == 0
  {
  }

  /** A run that ends in `Verified` has been won: two different games completed, 200 points. */
  lemma VerifiedOnlyAfterTwoWins(es: seq<Event>)
    requires Run(Init(), es).out == Verified
    ensures var s := Run(Init(), es).next;
      |s.completed| == WinThreshold && NoDuplicates(s.completed) && s.score == PointsPerWin * WinThreshold
  {
    InitValid();
    RunVerified(Init(), es);
  }

  /** `Verified` is only emitted from a state with the popup raised, so with two completed games. */
  lemma {:induction false} RunVerified(s: Session, es: seq<Event>)
    requires Valid(s) && Open(s)
    requires Run(s, es).out == Verified
    ensures |Run(s, es).next.completed| == WinThreshold
    ensures Valid(Run(s, es).next)
    decreases |es|
  {
    RunValid(s, es);
    var t := Step(s, es[0]);
    StepValid(s, es[0]);
    if t.out == Stay {
      RunVerified(t.next, es[1..]);
    }
  }

  // ---------------------------------------------------------------------
  // Scenarios
  // ---------------------------------------------------------------------

  /** One event that keeps the session mounted, then the rest of the run. */
  lemma RunStep(s: Session, es: seq<Event>)
    requires es != [] && Step(s, es[0]).out == Stay
    ensures Run(s, es) == Run(Step(s, es[0]).next, es[1..])
  {
  }

  /** One round from the intro screen that the player wins: 100 more points and one more, previously unplayed, completed game. */
  lemma WinRound(s: Session, r: real) returns (t: Session)
    requires Valid(s) && Open(s) && Screen(s) == IntroView && !s.winPopup && 0.0 <= r < 1.0
    ensures t == Step(Step(s, StartGame(r)).next, GameWon).next
    ensures Valid(t) && Open(t)
    ensures t.score == s.score + PointsPerWin && t.lives == s.lives
    ensures exists id :: id !in s.completed && t.completed == s.completed + [id]
    ensures |t.completed| == |s.completed| + 1 && t.completed[|s.completed|] !in s.completed
    ensures forall i :: 0 <= i < |s.completed| ==> t.completed[i] == s.completed[i]
    ensures |t.completed| == WinThreshold ==> t.winPopup
    ensures |t.completed| < WinThreshold ==> Screen(t) == IntroView && !t.winPopup
  {
    AvailableNonEmpty(s.completed);
    var s1 := Start(s, r);
    assert Step(s, StartGame(r)).next == s1;
    StepValid(s, StartGame(r));
    t := Win(s1);
    assert Step(s1, GameWon).next == t;
    StepValid(s1, GameWon);
    assert t.completed == s.completed + [s1.current.value.id];
  }

  /** One round from the intro screen that the player loses: one life less, nothing else gained. */
  lemma LoseRound(s: Session, r: real) returns (t: Session)
    requires Valid(s) && Open(s) && Screen(s) == IntroView && !s.winPopup && 0.0 <= r < 1.0
    ensures t == Step(Step(s, StartGame(r)).next, GameLost).next
    ensures Valid(t) && Open(t) && !t.winPopup
    ensures t.lives == s.lives - 1 && t.score == s.score && t.completed == s.completed
    ensures t.lives == 0 ==> Screen(t) == GameOverView
    ensures t.lives > 0 ==> Screen(t) == IntroView
  {
    AvailableNonEmpty(s.completed);
    var s1 := Start(s, r);
    assert Step(s, StartGame(r)).next == s1;
    StepValid(s, StartGame(r));
    t := Lose(s1);
    assert Step(s1, GameLost).next == t;
    StepValid(s1, GameLost);
  }

  /** "Continue" on the raised popup reports `Verified` and lowers the popup. */
  lemma ContinueVerifies(s: Session)
    requires s.winPopup
    ensures Step(s, ContinuePopup) == Transition(s.(winPopup := false), Verified)
  {
  }

  /** "Try Again" on the game-over screen, with no popup raised, brings back the mount state. */
  lemma RetryRestores(s: Session)
    requires Screen(s) == GameOverView && !s.winPopup
    ensures Step(s, Retry).next == Init()
  {
  }

  /** Fresh session, whatever the draws: two won rounds raise the popup with 200 points and two different games, and "Continue" reports `Verified`. */
  lemma TwoWinsScenario(r1: real, r2: real) returns (s2: Session, s4: Session)
    requires 0.0 <= r1 < 1.0 && 0.0 <= r2 < 1.0
    ensures s2 == Step(Step(Init(), StartGame(r1)).next, GameWon).next
    ensures s4 == Step(Step(s2, StartGame(r2)).next, GameWon).next
    ensures s2.score == 100 && |s2.completed| == 1 && Screen(s2) == IntroView
    ensures s4.winPopup && s4.score == 200
    ensures |s4.completed| == 2 && s4.completed[0] != s4.completed[1]
    ensures Step(s4, ContinuePopup).out == Verified
  {
    InitValid();
    s2 := WinRound(Init(), r1);
    s4 := WinRound(s2, r2);
    ContinueVerifies(s4);
  }

  /** Fresh session, whatever the draws: three lost rounds end on the game-over screen with no lives, and "Try Again" restores the mount state. */
  lemma ThreeLossesScenario(r1: real, r2: real, r3: real) returns (s2: Session, s4: Session, s6: Session)
    requires 0.0 <= r1 < 1.0 && 0.0 <= r2 < 1.0 && 0.0 <= r3 < 1.0
    ensures s2 == Step(Step(Init(), StartGame(r1)).next, GameLost).next
    ensures s4 == Step(Step(s2, StartGame(r2)).next, GameLost).next
    ensures s6 == Step(Step(s4, StartGame(r3)).next, GameLost).next
    ensures s2.lives == 2 && s4.lives == 1
    ensures s6.status == GameOver && s6.lives == 0 && s6.score == 0
    ensures Screen(s6) == GameOverView
    ensures Step(s6, Retry).next == Init()
  {
    InitValid();
    s2 := LoseRound(Init(), r1);
    s4 := LoseRound(s2, r2);
    s6 := LoseRound(s4, r3);
    RetryRestores(s6);
  }
}
