/**
 * The 20-20-20 session as a state machine over integer milliseconds.
 *
 * App.jsx chains interval callbacks: a work callback anchored at the
 * work phase's start, which on expiry replaces itself by a break callback
 * anchored at the break's start, which on expiry replaces itself by a new
 * work callback, and so on. Here the callback that is currently installed is
 * described by the state (which phase, its anchor, the auto-stop cap its
 * closure captured, and whether the first break, created by startSession,
 * has not ended yet), and one `Step(s, now)` is one firing of it at time `now`.
 */
module SessionSpec {
  import opened Wrappers
  import Display

  /** Length of a work phase, in milliseconds. */
  const TWENTY_MINUTES: int := 20 * 60 * 1000
  /** Length of a break, in milliseconds. */
  const TWENTY_SECONDS: int := 20 * 1000
  /** One hour of auto-stop cap, in milliseconds. */
  const HOUR: int := 60 * 60 * 1000

  /**
   * running, onBreak, timeRemaining, sessionElapsed and workDuration are the
   * component's state variables; sessionStart is the session-start reference
   * (None for null). phaseStart is the anchor of the installed callback
   * (startTime, breakStartTime or newStartTime), sessionHours the workDuration
   * its closure captured when the session was started, and firstCycle says
   * that the first break, created by startSession, has not ended yet; that
   * break does not reset the countdown when it ends.
   */
  datatype SessionState = SessionState(
    running: bool,
    onBreak: bool,
    timeRemaining: int,
    sessionElapsed: int,
    sessionStart: Option<int>,
    workDuration: int,
    phaseStart: int,
    sessionHours: int,
    firstCycle: bool)

  datatype Phase = Idle | Working | OnBreak

  /** Outcome of one tick: the new state and whether a notification is sent. */
  datatype TickResult = TickResult(next: SessionState, notify: bool)

  /** State when the window opens: not running, a full countdown, no cap. */
  function Initial(): SessionState {
    SessionState(false, false, TWENTY_MINUTES, 0, None, 0, 0, 0, false)
  }

  function PhaseOf(s: SessionState): Phase {
    if !s.running then Idle else if s.onBreak then OnBreak else Working
  }

  /** `if (sessionStartTimeRef.current)`: a JavaScript truthiness test, so a
      start time of 0 counts as absent just like null. */
  predicate HasSessionStart(s: SessionState) {
    s.sessionStart.Some? && s.sessionStart.value != 0
  }

  /** The auto-stop test: a positive cap and a session at least that long. */
  predicate CapReached(s: SessionState, now: int) {
    s.sessionHours > 0 && HasSessionStart(s) && now - s.sessionStart.value >= s.sessionHours * HOUR
  }

  /** The first thing every callback does: refresh the session's elapsed time. */
  function RefreshElapsed(s: SessionState, now: int): SessionState {
    if HasSessionStart(s) then s.(sessionElapsed := now - s.sessionStart.value) else s
  }

  /** The settings drop-down: only the setting changes. */
  function SetWorkDuration(s: SessionState, hours: int): SessionState {
    s.(workDuration := hours)
  }

  /** startSession, after the permission request: session and first work
      phase anchored at the same instant, the cap captured from the setting. */
  function Start(s: SessionState, now: int): SessionState {
    s.(running := true, onBreak := false, timeRemaining := TWENTY_MINUTES,
       sessionStart := Some(now), phaseStart := now, sessionHours := s.workDuration,
       firstCycle := true)
  }

  /** stopSession: everything the display shows returns to its initial value. */
  function Stop(s: SessionState): SessionState {
    s.(running := false, onBreak := false, timeRemaining := TWENTY_MINUTES,
       sessionElapsed := 0, sessionStart := None)
  }

  /** One firing of the installed callback at time `now`. */
  function Step(s: SessionState, now: int): (r: TickResult)
    ensures r.next.workDuration == s.workDuration && r.next.sessionHours == s.sessionHours
    ensures r.next.running ==> s.running && r.next.sessionStart == s.sessionStart
  {
    if !s.running then TickResult(s, false)
    else
      var e := RefreshElapsed(s, now);
      if !s.onBreak then
        var remaining := TWENTY_MINUTES - (now - s.phaseStart);
        if CapReached(s, now) then TickResult(Stop(e), true)
        else if remaining <= 0 then
          TickResult(e.(timeRemaining := 0, onBreak := true, phaseStart := now), true)
        else TickResult(e.(timeRemaining := remaining), false)
      else
        var breakRemaining := TWENTY_SECONDS - (now - s.phaseStart);
        if breakRemaining <= 0 then
          if CapReached(s, now) then TickResult(Stop(e), false)
          else
            var shown := if s.firstCycle then e.timeRemaining else TWENTY_MINUTES;
            TickResult(e.(onBreak := false, phaseStart := now, timeRemaining := shown,
                          firstCycle := false), false)
        else TickResult(e.(timeRemaining := breakRemaining), false)
  }

  // ---------------------------------------------------------------------
  // Invariants

  /** What holds of every reachable state, whatever the clock does. */
  predicate Inv(s: SessionState) {
    && (s.running ==> s.sessionStart.Some?)
    && (!s.running ==> !s.onBreak && s.sessionStart == None
                       && s.timeRemaining == TWENTY_MINUTES && s.sessionElapsed == 0)
    && s.timeRemaining >= 0
  }

  /** What additionally holds when the clock never runs backwards: the
      anchors are in the past and the countdown never exceeds a work phase. */
  predicate Clocked(s: SessionState, now: int) {
    s.running ==>
      && s.sessionStart.Some? && s.sessionStart.value <= s.phaseStart <= now
      && s.timeRemaining <= TWENTY_MINUTES
  }

  lemma InitialInv()
    ensures Inv(Initial()) && PhaseOf(Initial()) == Idle
    ensures Display.FormatTime(Initial().timeRemaining) == "20:00"
  {
    Display.FormatTimeFullPhase();
  }

  /** Start opens a working session whose session and first work phase are
      both anchored at `now`, with a full countdown and the cap taken from
      the current setting. */
  lemma StartInv(s: SessionState, now: int)
    ensures Inv(Start(s, now)) && Clocked(Start(s, now), now)
    ensures PhaseOf(Start(s, now)) == Working
    ensures Start(s, now).sessionStart == Some(now) && Start(s, now).phaseStart == now
    ensures Start(s, now).timeRemaining == TWENTY_MINUTES
    ensures Start(s, now).sessionHours == s.workDuration
  {
  }

  lemma StopInv(s: SessionState)
    ensures Inv(Stop(s)) && PhaseOf(Stop(s)) == Idle
  {
  }

  lemma StepInv(s: SessionState, now: int)
    requires Inv(s)
    ensures Inv(Step(s, now).next)
  {
  }

  /** With a clock that never goes back, a tick keeps the anchors ordered
      and the countdown within a work phase. */
  lemma StepClocked(s: SessionState, now: int, later: int)
    requires Inv(s) && Clocked(s, now) && now <= later
    ensures Clocked(Step(s, now).next, later)
  {
  }

  lemma SetWorkDurationInv(s: SessionState, hours: int)
    requires Inv(s)
    ensures Inv(SetWorkDuration(s, hours)) && PhaseOf(SetWorkDuration(s, hours)) == PhaseOf(s)
  {
  }

  // ---------------------------------------------------------------------
  // Start and Stop

  /** Start anchors the session and the first work phase at `now`: a tick
      inside the first twenty minutes, below the cap, shows exactly the time
      left of that phase and refreshes the session length. */
  lemma StartAnchors(s: SessionState, now: int, t: int)
    requires now <= t < now + TWENTY_MINUTES
    requires !CapReached(Start(s, now), t)
    ensures var r := Step(Start(s, now), t);
      && !r.notify && PhaseOf(r.next) == Working
      && r.next.timeRemaining == TWENTY_MINUTES - (t - now)
      && (now != 0 ==> r.next.sessionElapsed == t - now)
  {
  }

  /** Stop keeps nothing of the session whatever its phase, and a second
      Stop changes nothing. */
  lemma StopResets(s: SessionState)
    ensures Stop(s).timeRemaining == Initial().timeRemaining
    ensures Stop(s).sessionElapsed == 0 && Stop(s).sessionStart == None
    ensures Stop(Stop(s)) == Stop(s)
    ensures Display.FormatTime(Stop(s).timeRemaining) == "20:00"
    ensures Display.FormatSessionTime(Stop(s).sessionElapsed) == "0m"
  {
    Display.FormatTimeFullPhase();
    Display.FormatSessionTimeZero();
  }

  /** Once idle, ticks do nothing and notify nobody. */
  lemma IdleTick(s: SessionState, now: int)
    requires PhaseOf(s) == Idle
    ensures Step(s, now) == TickResult(s, false)
  {
  }

  // ---------------------------------------------------------------------
  // One tick

  /** A notification goes out exactly on a work tick that either reaches the
      cap or ends the work phase. */
  lemma NotifyIff(s: SessionState, now: int)
    ensures Step(s, now).notify <==>
      PhaseOf(s) == Working && (CapReached(s, now) || now - s.phaseStart >= TWENTY_MINUTES)
  {
  }

  /** Auto-stop wins during work: the session stops with one notification,
      and no break starts even when the work phase has also run out. */
  lemma AutoStopPrecedence(s: SessionState, now: int)
    requires PhaseOf(s) == Working && CapReached(s, now)
    ensures var r := Step(s, now);
      r.notify && r.next == Stop(RefreshElapsed(s, now)) && PhaseOf(r.next) == Idle
  {
  }

  /** Work to break: countdown at zero, break anchored at `now`, one notification. */
  lemma WorkToBreak(s: SessionState, now: int)
    requires PhaseOf(s) == Working && !CapReached(s, now)
    requires now - s.phaseStart >= TWENTY_MINUTES
    ensures var r := Step(s, now);
      && r.notify && PhaseOf(r.next) == OnBreak
      && r.next.timeRemaining == 0 && r.next.phaseStart == now
      && r.next.sessionStart == s.sessionStart && r.next.firstCycle == s.firstCycle
  {
  }

  /** Break to work: never a notification; the cap, checked only now, stops
      the session; otherwise a new work phase is anchored at `now`, showing a
      full countdown except after the very first break. */
  lemma BreakToWork(s: SessionState, now: int)
    requires PhaseOf(s) == OnBreak
    requires now - s.phaseStart >= TWENTY_SECONDS
    ensures var r := Step(s, now);
      && !r.notify
      && (CapReached(s, now) ==> r.next == Stop(RefreshElapsed(s, now)))
      && (!CapReached(s, now) ==>
            && PhaseOf(r.next) == Working && r.next.phaseStart == now && !r.next.firstCycle
            && r.next.timeRemaining == (if s.firstCycle then s.timeRemaining else TWENTY_MINUTES))
  {
  }

  /** Inside a work phase below the cap the countdown is the time left of
      that phase, measured from its own anchor: positive and at most twenty
      minutes. */
  lemma WorkCountdown(s: SessionState, now: int)
    requires PhaseOf(s) == Working && !CapReached(s, now)
    requires s.phaseStart <= now < s.phaseStart + TWENTY_MINUTES
    ensures var r := Step(s, now);
      && !r.notify && PhaseOf(r.next) == Working && r.next.phaseStart == s.phaseStart
      && r.next.timeRemaining == TWENTY_MINUTES - (now - s.phaseStart)
      && 0 < r.next.timeRemaining <= TWENTY_MINUTES
  {
  }

  /** Inside a break the countdown is the time left of the break, positive
      and at most twenty seconds; the cap is not consulted, so a session past
      its cap keeps running until the break ends. */
  lemma BreakCountdown(s: SessionState, now: int)
    requires PhaseOf(s) == OnBreak
    requires s.phaseStart <= now < s.phaseStart + TWENTY_SECONDS
    ensures var r := Step(s, now);
      && !r.notify && PhaseOf(r.next) == OnBreak && r.next.phaseStart == s.phaseStart
      && r.next.timeRemaining == TWENTY_SECONDS - (now - s.phaseStart)
      && 0 < r.next.timeRemaining <= TWENTY_SECONDS
  {
  }

  /** Every tick of a running session starts by refreshing its length. */
  lemma StepRefreshesElapsed(s: SessionState, now: int)
    requires HasSessionStart(s)
    ensures var r := Step(s, now);
      PhaseOf(r.next) != Idle ==> r.next.sessionElapsed == now - s.sessionStart.value
  {
  }

  /** A tick that leaves the session working keeps it below its cap, so the
      auto-stop countdown of the status line is positive while the setting is
      the one the session started with. */
  lemma WorkingBelowCap(s: SessionState, now: int)
    requires PhaseOf(s) == Working && HasSessionStart(s) && s.sessionHours > 0
    requires s.workDuration == s.sessionHours
    ensures var r := Step(s, now);
      PhaseOf(r.next) == Working ==> AutoStopIn(r.next) > 0
  {
  }

  /** The status line's "auto-stop in" duration: it uses the current setting. */
  function AutoStopIn(s: SessionState): int {
    s.workDuration * HOUR - s.sessionElapsed
  }

  /** The running session keeps the cap it captured: changing the setting
      changes nothing a tick does, except that the setting stays changed. */
  lemma SettingIgnoredWhileRunning(s: SessionState, hours: int, now: int)
    ensures Step(SetWorkDuration(s, hours), now)
      == var r := Step(s, now); TickResult(SetWorkDuration(r.next, hours), r.notify)
  {
  }

  /** Concrete consequence of the cap being consulted only at the end of a
      break: a break that began a moment before the cap keeps the session
      running past it, and the status line then shows a negative duration. */
  lemma BreakPastCapShowsNegative(t0: int)
    requires t0 > 0
    ensures var s := SessionState(true, true, TWENTY_SECONDS, HOUR - 1, Some(t0), 1,
                                  t0 + HOUR - 1, 1, false);
      var r := Step(s, t0 + HOUR + 1);
      && PhaseOf(r.next) == OnBreak
      && CapReached(s, t0 + HOUR + 1)
      && AutoStopIn(r.next) == -1
      && Display.FormatSessionTime(AutoStopIn(r.next)) == "-1m"
  {
    Display.FormatSessionTimeMinusOne();
  }

  /** The countdown fits the five-column "MM:SS" display in every state a
      monotone clock can reach. */
  lemma CountdownDisplayWidth(s: SessionState, now: int)
    requires Inv(s) && Clocked(s, now)
    ensures |Display.FormatTime(s.timeRemaining)| == 5
  {
    Display.FormatTimeWidth(s.timeRemaining);
  }
}
