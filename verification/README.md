# Birthday card verification gate — Dafny model

This project models the logic of a birthday greeting web page. Before the birthday
surprise is shown, the visitor has to pass a "human verification" made of
mini-games. The model covers:

- **Catalog** (`catalog.dfy`): the four catalog games, and the selector that draws
  one the player has not completed yet.
- **Session** (`session.dfy`): the verification session (`VerificationGame`). It holds
  score, lives, the completed games, the current game, the phase (intro / playing /
  game over) and the win popup. Its handlers are start, win, lose, retry, continue
  and close, and a rule decides which screen is rendered. The callbacks to the host
  page become an `Outcome` value: `Verified` for the popup's Continue, and `Closed`
  for any close button.
- **Shuffle** (`shuffle.dfy`): a shuffle given as a permutation of positions, and the
  fact that dealing through it rearranges a list without losing or duplicating entries.
- **MemoryMatch** (`memory.dfy`): the memory game. It deals 16 cards showing
  8 symbols twice each, applies the guarded flip rule, resets after a mismatch,
  and runs a 30-second countdown.
- **WhackAMole** (`whack.dfy`): nine holes with spawn, despawn and whack, a score,
  and a 20-second clock. When the clock runs out, the game is won with at least
  15 hits.
- **PageFlow** (`home.dfy`): the home page's flags for loaded, gate shown, birthday
  shown, verification completed and main content shown, plus the one-shot startup
  timer. The model has the handlers, what each flag combination renders (including
  the reminder screen), and the gating of events by what is on screen.
- **LoadingBar** (`loading.dfy`): the progress bar. It adds 2 % per tick, holds at
  100 %, and its first tick at 100 % stops the interval and reports loading done.
- **HeroSlider** (`hero.dfy`): the banner's slide index. It advances modulo three
  and jumps to a slide when its dot is clicked.

Randomness is an explicit input:

- `Math.random()` in the selector is a real `roll` in [0, 1).
- The card shuffle is a permutation `order`.
- The mole's hole is the spawn event's `slot`.

Every timer callback is a discrete event. Delays that only postpone a state change,
such as 1500 ms before returning to the intro screen, are folded into the
transition.

Places where the code's behaviour is easy to misread:

- After the last life is lost, the code keeps `currentGame` set on the game-over
  screen. So "a current game exists" is not the same as "playing": `Session.Lose`
  keeps it, and `Session.Valid` states "intro iff no current game" instead.
- The selector filters all four catalog entries, not only the two games that have
  their own engine. After two wins the popup is raised at once, so the "no game
  left" branch of `startRandomGame` is never taken in a reachable state
  (`Session.StartAlwaysFindsGame`). The two catalog entries without an engine run
  the memory game (`Session.EngineFor`).
- "Try Again" does not touch the win-popup flag (`Session.Reset`).
- Closing the win popup reports `onClose`, not a win. The page then treats the
  visitor as unverified: it shows the reminder, and the gate remounts fresh
  (`PageFlow.ClosedGateShowsReminder`).

## Model

| member | source | states |
|---|---|---|
| Catalog.Remaining | src/Pages/game-verify.jsx:42 | the filtered list holds exactly the catalog entries whose id is not completed, and is no longer than the catalog |
| Catalog.PickIndex | src/Pages/game-verify.jsx:49 | `floor(roll * n)` is a valid position, within one of `roll * n` |
| Catalog.PickIndexCoversAll | src/Pages/game-verify.jsx:49 | every position is drawn by some roll in [0, 1) |
| Catalog.AvailableNonEmpty | src/Pages/game-verify.jsx:14-42 | with fewer ids completed than the catalog holds, some game is still available |
| Catalog.RemainingKeepsOpen | src/Pages/game-verify.jsx:42 | when no listed id is completed, filtering keeps the whole list |
| Session.Start | src/Pages/game-verify.jsx:41-52 | with no game left, only the popup is raised. Otherwise the new current game is a catalog game whose id is not completed, the phase becomes playing, and nothing else changes |
| Session.Win | src/Pages/game-verify.jsx:54-68 | exactly 100 points more, the current id appended, and lives unchanged. At two or more completed games the popup is raised and the rest kept; otherwise the session returns to intro with no current game |
| Session.Lose | src/Pages/game-verify.jsx:70-82 | exactly one life less; score, completed games and popup unchanged. At zero lives the phase is game over (current game kept); otherwise intro with no current game |
| Session.Reset | src/Pages/game-verify.jsx:84-90 | whatever the prior state, everything but the popup flag equals the mount state |
| Session.Screen | src/Pages/game-verify.jsx:116-137 | game over takes precedence; otherwise no current game means the intro screen; otherwise the game screen shows the current game |
| Session.EngineFor | src/Pages/game-verify.jsx:479-488 | the whack game runs the whack engine; every other id runs memory match |
| Session.Step | src/Pages/game-verify.jsx:92-100 | an event nothing on screen can raise changes nothing. `Verified` is reported exactly for Continue on the popup; `Closed` exactly for the popup's Close or a close button |
| Session.InitValid | src/Pages/game-verify.jsx:7-12 | the mount state satisfies the session invariant |
| Session.StepValid | src/Pages/game-verify.jsx:41-100 | every event keeps the invariant: lives in 0..3, zero lives iff game over, intro iff no current game, no repeated completed game, at most two completed, score = 100 per completed game, popup only at two completed |
| Session.RunValid | src/Pages/game-verify.jsx:41-100 | any event sequence from a valid state ends in a valid state |
| Session.StartAlwaysFindsGame | src/Pages/game-verify.jsx:41-47 | in every reachable state where Start can be pressed, a game remains, and the chosen one is not completed |
| Session.StartReachesEveryOpenGame | src/Pages/game-verify.jsx:49 | every game still available is chosen by some roll |
| Session.ScreenFollowsPhase | src/Pages/game-verify.jsx:116-137 | in a valid state the intro screen shows iff the phase is intro, the game screen iff playing, and the game-over screen iff lives are zero |
| Session.VerifiedOnlyAfterTwoWins | src/Pages/game-verify.jsx:58-61 | a run from mount that reports `Verified` has two different completed games and 200 points |
| Session.RunVerified | src/Pages/game-verify.jsx:92-95 | `Verified` is only reported from a state with two completed games |
| Session.WinRound | src/Pages/game-verify.jsx:41-68 | start then win, from the intro screen: 100 points more and one new, previously uncompleted game. The popup is raised exactly when that makes two |
| Session.LoseRound | src/Pages/game-verify.jsx:41-82 | start then lose, from the intro screen: one life less and nothing gained; the game-over screen exactly when lives reach zero |
| Session.ContinueVerifies | src/Pages/game-verify.jsx:92-95 | Continue on the popup lowers it and reports `Verified` |
| Session.RetryRestores | src/Pages/game-verify.jsx:84-90 | Try Again on the game-over screen restores the mount state |
| Session.TwoWinsScenario | src/Pages/game-verify.jsx:41-68 | from mount, whatever the draws, two won rounds raise the popup with 200 points and two different games, and Continue reports `Verified` |
| Session.ThreeLossesScenario | src/Pages/game-verify.jsx:70-90 | from mount, three lost rounds give lives 2, 1, 0 and the game-over screen with score 0; Try Again restores the mount state |
| Shuffle.ShuffleInRange | src/Pages/game-verify.jsx:334-335 | every entry of a permutation of 0..n-1 is below n |
| Shuffle.GatherPicks | src/Pages/game-verify.jsx:334-336 | entry i of the rearranged list is the element at the i-th listed position |
| Shuffle.GatherRespectsMultiset | src/Pages/game-verify.jsx:334-335 | two position lists with the same multiset pick up the same multiset of elements |
| Shuffle.GatherShuffle | src/Pages/game-verify.jsx:334-335 | rearranging through a permutation keeps the multiset of elements |
| MemoryMatch.DoubledCounts | src/Pages/game-verify.jsx:318 | the doubled symbol list has 16 entries and each symbol occurs exactly twice |
| MemoryMatch.Number | src/Pages/game-verify.jsx:336 | card i has id i and shows the i-th face |
| MemoryMatch.Deal | src/Pages/game-verify.jsx:333-341 | 16 cards with ids 0..15; no flipped or matched cards; 30 seconds |
| MemoryMatch.DealPermutes | src/Pages/game-verify.jsx:333-336 | the faces of a deal are a permutation of the doubled list, so each symbol shows on exactly two cards |
| MemoryMatch.DealShows | src/Pages/game-verify.jsx:334-336 | card i of a deal shows the doubled-list entry that the shuffle put at position i |
| MemoryMatch.DealValid | src/Pages/game-verify.jsx:333-341 | a fresh deal satisfies the game invariant |
| MemoryMatch.Click | src/Pages/game-verify.jsx:343-361 | ignored while two cards are up or for a flipped or matched card. A first card turns up. A second card of the same symbol records both in `matched` and clears `flipped`; a different symbol leaves both up. The invariant is kept, with at most two flipped cards and none matched. The win is signalled exactly when this match brings `matched` to 16 |
| MemoryMatch.ResetFlips | src/Pages/game-verify.jsx:358 | the mismatch timer turns both cards down and changes nothing else |
| MemoryMatch.Pigeonhole | src/Pages/game-verify.jsx:344 | distinct card positions number at most 16, and 16 of them name every card |
| MemoryMatch.MatchedBound | src/Pages/game-verify.jsx:344 | at most the 16 cards are ever matched |
| MemoryMatch.WonGameIgnoresClicks | src/Pages/game-verify.jsx:344 | once all 16 cards are matched every click is ignored, so the win is signalled at most once |
| MemoryMatch.RematchIsNoOp | src/Pages/game-verify.jsx:344 | clicking already matched cards changes nothing |
| MemoryMatch.CountdownEffect | src/Pages/game-verify.jsx:324-331 | as written: a tick is scheduled iff time remains and fewer than 8 cards are matched; the loss is reported iff the clock shows 0 |
| MemoryMatch.Tick | src/Pages/game-verify.jsx:326 | a scheduled tick takes one second off, never below zero, and keeps the invariant |
| MemoryMatch.CountdownStallsAfterFourPairs | src/Pages/game-verify.jsx:325 | with 8 or more matched cards and time left the countdown is idle, and no click restarts it |
| MemoryMatch.DistinctIsShuffle | src/Pages/game-verify.jsx:335 | any 16 distinct positions below 16 form a permutation |
| MemoryMatch.PairOrderSideBySide | src/Pages/game-verify.jsx:334-335 | the concrete shuffle `PairOrder` puts each symbol's two copies at positions 2j and 2j+1 |
| MemoryMatch.PairedDeal | src/Pages/game-verify.jsx:333-336 | a deal through a shuffle that lays pairs side by side shows equal symbols at positions 2j and 2j+1 |
| MemoryMatch.MatchPairs | src/Pages/game-verify.jsx:343-361 | clicking pairs of positions keeps the invariant, the cards and the clock. On a fresh deck whose first k position pairs show equal symbols, clicking them in order matches exactly those 2k cards and leaves none face up |
| MemoryMatch.ClickNextPair | src/Pages/game-verify.jsx:349-356 | with exactly the cards before position i matched and none face up, clicking the equal cards i and i+1 matches them too |
| MemoryMatch.StalledCountdownExample | src/Pages/game-verify.jsx:324-361 | dealt with such a shuffle, matching four pairs leaves 8 cards face down with 30 s left and the countdown idle |
| MemoryMatch.CountdownEffectIntended | src/Pages/game-verify.jsx:324-331 | corrected: a tick is scheduled iff time remains and some card is unmatched; idle iff time remains and every card is matched; the loss is reported iff the clock shows 0 |
| MemoryMatch.TickIntended | src/Pages/game-verify.jsx:326 | corrected tick: one second off, invariant kept |
| MemoryMatch.TicksIntended | src/Pages/game-verify.jsx:324-329 | n corrected ticks with no click in between keep the invariant, the cards, the face-up cards and the matched cards |
| MemoryMatch.IntendedCountdownReportsLoss | src/Pages/game-verify.jsx:324-329 | with the corrected effect and cards still unmatched, each of the first t ticks (t = the seconds left) is followed by another scheduled tick; after exactly t ticks the clock shows 0 and the loss is reported |
| WhackAMole.Mount | src/Pages/game-verify.jsx:394-396 | nine empty holes, score 0, 20 seconds |
| WhackAMole.Spawn | src/Pages/game-verify.jsx:400-406 | the chosen hole is raised, every other hole, the score and the clock unchanged, same grid size |
| WhackAMole.Despawn | src/Pages/game-verify.jsx:408-414 | the chosen hole is lowered, every other hole, the score and the clock unchanged, same grid size |
| WhackAMole.Whack | src/Pages/game-verify.jsx:439-448 | a raised mole: score plus exactly one, only that hole cleared; an empty hole: nothing changes |
| WhackAMole.UpUpdate | src/Pages/game-verify.jsx:403-411 | setting one hole changes the number of raised moles by exactly that hole's change |
| WhackAMole.Tick | src/Pages/game-verify.jsx:417-431 | above one second: one second off, nothing reported. At one second or less: the clock shows 0, with a win iff the score is at least 15 and a loss otherwise |
| WhackAMole.ClockEndsOnTime | src/Pages/game-verify.jsx:417-431 | with t seconds on the clock, the first t-1 ticks report nothing and the t-th reports the verdict |
| WhackAMole.MountedGameLastsTwentyTicks | src/Pages/game-verify.jsx:396-431 | from mount, ticks 1 to 19 report nothing and tick 20 reports the verdict, a loss with no hits |
| WhackAMole.ScoreNeedsRaisedMoles | src/Pages/game-verify.jsx:400-448 | along any event sequence, score plus raised moles never exceed the start value plus the number of spawns, and the score grows by at most the number of clicks |
| WhackAMole.WinNeedsFifteenHits | src/Pages/game-verify.jsx:422 | reaching the winning score from mount takes at least 15 spawns and 15 clicks |
| PageFlow.VerificationComplete | src/Pages/Home.jsx:29-33 | completed and birthday set, gate hidden, every other flag unchanged |
| PageFlow.CloseVerification | src/Pages/Home.jsx:35-38 | only the gate flag changes, to hidden |
| PageFlow.BackFromBirthday | src/Pages/Home.jsx:40-43 | birthday hidden and main content shown, every other flag unchanged |
| PageFlow.StartupTimer | src/Pages/Home.jsx:21-27 | the timer shows the gate, fires once, and changes nothing else |
| PageFlow.StartFromReminder | src/Pages/Home.jsx:101 | the reminder's button only shows the gate |
| PageFlow.Loaded | src/Pages/Home.jsx:48 | the loader's callback only sets the loaded flag |
| PageFlow.Step | src/Pages/Home.jsx:47-76 | an event from something not on screen changes nothing. Verification becomes completed exactly on the gate's `Verified`; main content is switched on exactly by leaving the birthday screen |
| PageFlow.MountValid | src/Pages/Home.jsx:14-18 | the mount state satisfies the page invariant |
| PageFlow.StepValid | src/Pages/Home.jsx:21-43 | every event keeps the invariant: main content and birthday only after completion. After completion the gate stays hidden and exactly one of birthday and main content is shown |
| PageFlow.RunValid | src/Pages/Home.jsx:21-43 | any event sequence from a valid page ends in a valid page |
| PageFlow.OneLayerShown | src/Pages/Home.jsx:47-76 | in a valid page, either the loader alone shows, or exactly one of gate, birthday, main content and reminder |
| PageFlow.MainContentNeedsVerification | src/Pages/Home.jsx:52 | from mount, whatever happens, main content and birthday are never rendered before verification completed |
| PageFlow.CompletionNeedsVerifiedOutcome | src/Pages/Home.jsx:29-33 | verification becomes completed only through a `Verified` outcome of the gate |
| PageFlow.HappyPath | src/Pages/Home.jsx:21-73 | timer, loader and a verified gate show the birthday screen; leaving it shows the main content |
| PageFlow.ClosedGateShowsReminder | src/Pages/Home.jsx:76-101 | closing the gate unverified shows the reminder, whose button shows the gate again |
| LoadingBar.Tick | src/Pages/loading.jsx:12-20 | below 100: exactly two more, still running. At 100 or more: held at 100, interval stopped, and `onLoaded` called, the only path that calls it. A stopped interval does nothing |
| LoadingBar.TickValid | src/Pages/loading.jsx:13-20 | a tick keeps the bar even, within 0..100, and never moves it backwards |
| LoadingBar.RunShape | src/Pages/loading.jsx:9-21 | after n ticks from 0 the bar shows min(2n, 100), and `onLoaded` has been called once from tick 51 on, never before |
| LoadingBar.RunMonotone | src/Pages/loading.jsx:13-20 | the bar never decreases along a run |
| HeroSlider.CountMatchesSlides | src/Section/Hero.jsx:6-10 | the slide list has three entries |
| HeroSlider.Advance | src/Section/Hero.jsx:16 | the next index is in 0..2: one more below the last slide, back to the first after it |
| HeroSlider.Select | src/Section/Hero.jsx:84-88 | clicking dot i shows a valid slide, that dot is drawn as active, and it is the only active dot |
| HeroSlider.OneActiveDot | src/Section/Hero.jsx:84-88 | for a valid index exactly the dot at that index is active |
| HeroSlider.AdvanceTimesModulo | src/Section/Hero.jsx:14-17 | n interval steps from slide c show slide (c + n) mod 3 |
| HeroSlider.FullCycleReturns | src/Section/Hero.jsx:16 | three steps come back to the same slide |
| HeroSlider.RunInRange | src/Section/Hero.jsx:12-20 | after any mix of interval steps and dot clicks from a valid index, the index names a slide and exactly one dot is active. If the last event was a click, its slide is shown |

## Left out

- Rendering, styling, framer-motion animations and the display text (the games' names and descriptions, the slide images and captions) are presentation only, so the model keeps only ids.
- `Birthday.jsx`, `Moments.jsx`, `Transition.jsx`, `Letter.jsx`, `nav-bar.jsx`, `Model.jsx`, `ProgressLoader.jsx` and `testload.jsx` are not part of this model. They are canvas and scroll animations, three.js wrappers, single UI toggles and a static page.
- Hero's `scrollToMoments` timer scrolls the DOM and has no state to model.
- `Math.random` is replaced by parameters: the selector's `roll`, the shuffle's `order` and the mole's `slot`. The model says nothing about their distribution.
- Timer delays are folded into transitions. These are the 1500 ms before intro or the popup, the 500 ms before a mini-game's callback, and the 800 ms despawn. So are interval cancellation and effect re-runs, which only shift timing. Examples: the whack effect restarts on every score change; the loading effect restarts whenever the home page re-renders.
- Session.Step: a mini-game reports at most once per round, because the session leaves the game screen immediately. In the code the 1500 ms delay leaves a window for repeat reports. A memory game whose clock shows 0 re-reports the loss whenever another pair is matched. This is because card clicks are not guarded by the clock and the countdown effect re-runs on `matched.length`. A whack game that ended re-reports its verdict if a mole still up is hit (next line). Either repeat could cost a second life; the model does not represent it.
- Session.VerifiedOnlyAfterTwoWins: the "two different games" holds only in the model, which folds repeat reports away. In the code a whack game can be counted twice. The clock reaches 0 with 15 or more hits and `onWin` is scheduled (game-verify.jsx:422-423). A mole raised just before is still up for up to 800 ms (408-414); hitting it changes the score, which re-runs the whack effect (437). The restarted clock finds 0 seconds and schedules `onWin` again. The second `handleGameWin` appends the whack id a second time (56), sees two completed entries (58) and raises the popup with 200 points (60). Continue then reports `Verified` after one distinct game. `Session.Valid`'s no-duplicates clause describes the model, not this path.
- PageFlow.Enabled: the loader's completion is taken to come after the 2.5 s startup timer, since loading needs 51 ticks of 100 ms. This is a timing assumption, not something the code enforces.
- The drag and color games have no engine of their own and run memory match (`Session.EngineFor`); there is nothing further to model for them.

## Findings

| source | as written | input that shows it | evidently intended | confidence | as-written member | corrected member |
|---|---|---|---|---|---|---|
| src/Pages/game-verify.jsx:325 | the memory countdown ticks only while `matched.length < symbols.length`, that is, fewer than 8 matched cards, although the deck has 16 | deal with `PairOrder` and match the pairs at positions (0,1), (2,3), (4,5), (6,7) with 30 s left. Eight cards are still face down, yet the timer stops and the loss is never reported (`MemoryMatch.StalledCountdownExample`) | keep ticking until all 16 cards are matched (`symbols.length * 2`, as the win check on line 354 uses) | medium, not executed | MemoryMatch.CountdownStallsAfterFourPairs | MemoryMatch.CountdownEffectIntended |
