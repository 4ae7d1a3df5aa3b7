/**
 The home page's sequencer: a loading screen, then the verification gate, then
 the birthday screen, then the main content. Its state is five booleans; every
 handler sets some of them.

 Events are the handlers plus the two callbacks that arrive from outside: the
 loading bar's `onLoaded` and the one-shot startup timer. An event is only
 possible while the component that raises it is on screen.
 */
module PageFlow {
  import Session

  datatype Page = Page(
    isLoaded: bool,
    showVerification: bool,
    showBirthday: bool,
    verificationCompleted: bool,
    showHomeContent: bool,
    /** The 2.5-second startup timer has not fired yet. */
    timerPending: bool)

  /** The page as it mounts: every flag false, the startup timer armed. */
  function Mount(): Page
  {
    Page(false, false, false, false, false, true)
  }

  /** The gate reported a win. */
  function VerificationComplete(p: Page): (r: Page)
    ensures r.verificationCompleted && r.showBirthday && !r.showVerification
    ensures r.isLoaded == p.isLoaded && r.showHomeContent == p.showHomeContent && r.timerPending == p.timerPending
  {
    p.(verificationCompleted := true, showBirthday := true, showVerification := false)
  }

  /** The gate was closed: it is hidden and nothing else changes, so the main content stays hidden. */
  function CloseVerification(p: Page): (r: Page)
    ensures !r.showVerification
    ensures r.(showVerification := p.showVerification) == p
  {
    p.(showVerification := false)
  }

  /** The birthday screen's back button: the main content replaces it. */
  function BackFromBirthday(p: Page): (r: Page)
    ensures !r.showBirthday && r.showHomeContent
    ensures r.(showBirthday := p.showBirthday, showHomeContent := p.showHomeContent) == p
  {
    p.(showBirthday := false, showHomeContent := true)
  }

  /** The startup timer opens the gate (even while the loading screen still covers it). */
  function StartupTimer(p: Page): (r: Page)
    ensures r.showVerification && !r.timerPending
    ensures r.(showVerification := p.showVerification, timerPending := p.timerPending) == p
  {
    p.(showVerification := true, timerPending := false)
  }

  /** The reminder's button reopens the gate and changes nothing else. */
  function StartFromReminder(p: Page): (r: Page)
    ensures r.showVerification
    ensures r.(showVerification := p.showVerification) == p
  {
    p.(showVerification := true)
  }

  /** The loading bar's `onLoaded`. */
  function Loaded(p: Page): (r: Page)
    ensures r.isLoaded
    ensures r.(isLoaded := p.isLoaded) == p
  {
    p.(isLoaded := true)
  }

  // What is rendered, one predicate per conditional in the page's markup.

  predicate LoadingShown(p: Page) { !p.isLoaded }

  predicate MainContentShown(p: Page) { p.isLoaded && p.showHomeContent }

  predicate GateShown(p: Page) { p.isLoaded && p.showVerification }

  predicate BirthdayShown(p: Page) { p.isLoaded && p.showBirthday }

  predicate ReminderShown(p: Page)
  {
    p.isLoaded && !p.verificationCompleted && !p.showVerification && !p.showBirthday && !p.showHomeContent
  }

  datatype Event =
    | TimerFired
    | LoadFinished
    | GateOutcome(out: Session.Outcome)
    | LeaveBirthday
    | ReminderStart

  /**
   Whether the event can happen now. The startup timer fires once. The loading
   bar reports only while it is on screen, and only after the startup timer,
   since it needs 51 ticks of 100 ms, well beyond the timer's 2.5 s. The other
   events come from components that must be on screen.
   */
  predicate Enabled(p: Page, e: Event)
  {
    match e
    case TimerFired => p.timerPending
    case LoadFinished => LoadingShown(p) && !p.timerPending
    case GateOutcome(_) => GateShown(p)
    case LeaveBirthday => BirthdayShown(p)
    case ReminderStart => ReminderShown(p)
  }

  /**
   The page after an event. The gate's verified outcome runs the completion
   handler, its close outcome the close handler; a disabled event changes nothing.
   */
  function Step(p: Page, e: Event): (r: Page)
    ensures !Enabled(p, e) ==> r == p
    ensures r.verificationCompleted <==> p.verificationCompleted || (Enabled(p, e) && e == GateOutcome(Session.Verified))
    ensures r.showHomeContent <==> p.showHomeContent || (Enabled(p, e) && e == LeaveBirthday)
  {
    if !Enabled(p, e) then p
    else match e
      case TimerFired => StartupTimer(p)
      case LoadFinished => Loaded(p)
      case GateOutcome(out) =>
        (match out
         case Verified => VerificationComplete(p)
         case Closed => CloseVerification(p)
         case Stay => p)
      case LeaveBirthday => BackFromBirthday(p)
      case ReminderStart => StartFromReminder(p)
  }

  function Run(p: Page, es: seq<Event>): Page
    decreases |es|
  {
    if es == [] then p else Run(Step(p, es[0]), es[1..])
  }

  /**
   The invariant of every reachable page: the birthday screen and the main
   content come only after a completed verification, and once loaded exactly
   one of gate, birthday screen, main content and reminder is on screen.
   */
  predicate Valid(p: Page)
  {
    && (p.showHomeContent ==> p.verificationCompleted)
    && (p.showBirthday ==> p.verificationCompleted)
    && (p.verificationCompleted ==> !p.showVerification && (p.showBirthday != p.showHomeContent))
    && (p.timerPending ==> !p.isLoaded && !p.showVerification)
    && (!p.isLoaded ==> !p.verificationCompleted)
  }

  lemma MountValid()
    ensures Valid(Mount())
  {
  }

  lemma StepValid(p: Page, e: Event)
    requires Valid(p)
    ensures Valid(Step(p, e))
  {
  }

  lemma {:induction false} RunValid(p: Page, es: seq<Event>)
    requires Valid(p)
    ensures Valid(Run(p, es))
    decreases |es|
  {
    if es != [] {
      StepValid(p, es[0]);
      RunValid(Step(p, es[0]), es[1..]);
    }
  }

  /** Exactly one layer is on screen in a valid page: the loader, or one of the four after loading. */
  lemma OneLayerShown(p: Page)
    requires Valid(p)
    ensures LoadingShown(p) ==> !GateShown(p) && !BirthdayShown(p) && !MainContentShown(p) && !ReminderShown(p)
    ensures !LoadingShown(p) ==>
      (if GateShown(p) then 1 else 0) + (if BirthdayShown(p) then 1 else 0)
      + (if MainContentShown(p) then 1 else 0) + (if ReminderShown(p) then 1 else 0) == 1
  {
  }

  /** Whatever happens from mount, the main content is never shown before the gate reported a win. */
  lemma MainContentNeedsVerification(es: seq<Event>)
    ensures MainContentShown(Run(Mount(), es)) ==> Run(Mount(), es).verificationCompleted
    ensures BirthdayShown(Run(Mount(), es)) ==> Run(Mount(), es).verificationCompleted
  {
    RunValid(Mount(), es);
  }

  /** Only the gate's verified outcome completes verification along a run. */
  lemma {:induction false} CompletionNeedsVerifiedOutcome(p: Page, es: seq<Event>)
    requires !p.verificationCompleted
    requires Run(p, es).verificationCompleted
    ensures exists k :: 0 <= k < |es| && es[k] == GateOutcome(Session.Verified)
    decreases |es|
  {
    var q := Step(p, es[0]);
    if q.verificationCompleted {
      assert es[0] == GateOutcome(Session.Verified);
    } else {
      CompletionNeedsVerifiedOutcome(q, es[1..]);
      var k :| 0 <= k < |es[1..]| && es[1..][k] == GateOutcome(Session.Verified);
      assert es[k + 1] == GateOutcome(Session.Verified);
    }
  }

  /** The usual visit: timer, loader, a verified gate, the birthday screen, then the main content. */
  lemma HappyPath()
    ensures var p := Run(Mount(), [TimerFired, LoadFinished]);
      GateShown(p) && !ReminderShown(p)
    ensures var p := Run(Mount(), [TimerFired, LoadFinished, GateOutcome(Session.Verified)]);
      BirthdayShown(p) && !GateShown(p)
    ensures MainContentShown(Run(Mount(), [TimerFired, LoadFinished, GateOutcome(Session.Verified), LeaveBirthday]))
  {
  }

  /** Closing the gate leads to the reminder, whose button brings the gate back. */
  lemma ClosedGateShowsReminder()
    ensures ReminderShown(Run(Mount(), [TimerFired, LoadFinished, GateOutcome(Session.Closed)]))
    ensures GateShown(Run(Mount(), [TimerFired, LoadFinished, GateOutcome(Session.Closed), ReminderStart]))
  {
  }
}
