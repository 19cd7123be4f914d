/**
 * The timer component itself: its state variables and references as the
 * fields of one object, the Start and Stop buttons and the settings
 * drop-down as methods, and one firing of the installed interval callback
 * as Tick. Each method is proved to perform the corresponding step of
 * SessionSpec, which is where the timer's properties are stated.
 */
module Timer {
  import opened Wrappers
  import SessionSpec

  class Session {
    var running: bool
    var onBreak: bool
    var timeRemaining: int
    var sessionElapsed: int
    var sessionStart: Option<int>
    var workDuration: int
    /** Anchor captured by the installed callback. */
    var phaseStart: int
    /** Auto-stop cap captured by the installed callback, in hours. */
    var sessionHours: int
    /** The first break, created by startSession, has not ended yet. */
    var firstCycle: bool

    function State(): SessionSpec.SessionState
      reads this
    {
      SessionSpec.SessionState(running, onBreak, timeRemaining, sessionElapsed, sessionStart,
                               workDuration, phaseStart, sessionHours, firstCycle)
    }

    ghost predicate Valid()
      reads this
    {
      SessionSpec.Inv(State())
    }

    constructor ()
      ensures State() == SessionSpec.Initial() && Valid()
    {
      running := false;
      onBreak := false;
      timeRemaining := SessionSpec.TWENTY_MINUTES;
      sessionElapsed := 0;
      sessionStart := None;
      workDuration := 0;
      phaseStart := 0;
      sessionHours := 0;
      firstCycle := false;
    }

    /** A choice in the auto-stop drop-down (0 for never). */
    method SetWorkDuration(hours: int)
      requires Valid()
      modifies this
      ensures Valid()
      ensures State() == SessionSpec.SetWorkDuration(old(State()), hours)
    {
      workDuration := hours;
    }

    /** The Start button, once the notification permission request has returned. */
    method Start(now: int)
      modifies this
      ensures Valid()
      ensures State() == SessionSpec.Start(old(State()), now)
    {
      running := true;
      onBreak := false;
      timeRemaining := SessionSpec.TWENTY_MINUTES;
      sessionStart := Some(now);
      phaseStart := now;
      sessionHours := workDuration;
      firstCycle := true;
    }

    /** The Stop button, and the auto-stop. */
    method Stop()
      modifies this
      ensures Valid()
      ensures State() == SessionSpec.Stop(old(State()))
    {
      running := false;
      onBreak := false;
      timeRemaining := SessionSpec.TWENTY_MINUTES;
      sessionElapsed := 0;
      sessionStart := None;
    }

    /** One firing of the installed interval callback at time `now`;
        `notify` says whether it sends the break notification. */
    method Tick(now: int) returns (notify: bool)
      requires Valid()
      modifies this
      ensures Valid()
      ensures SessionSpec.TickResult(State(), notify) == SessionSpec.Step(old(State()), now)
    {
      SessionSpec.StepInv(State(), now);
      notify := false;
      if !running {
        return;
      }
      var hasStart := sessionStart.Some? && sessionStart.value != 0;
      if hasStart {
        sessionElapsed := now - sessionStart.value;
      }
      var capReached := sessionHours > 0 && hasStart
                        && now - sessionStart.value >= sessionHours * SessionSpec.HOUR;
      if !onBreak {
        if capReached {
          Stop();
          notify := true;
          return;
        }
        var remaining := SessionSpec.TWENTY_MINUTES - (now - phaseStart);
        if remaining <= 0 {
          timeRemaining := 0;
          onBreak := true;
          notify := true;
          phaseStart := now;
        } else {
          timeRemaining := remaining;
        }
      } else {
        var breakRemaining := SessionSpec.TWENTY_SECONDS - (now - phaseStart);
        if breakRemaining <= 0 {
          onBreak := false;
          if capReached {
            Stop();
            return;
          }
          phaseStart := now;
          if !firstCycle {
            timeRemaining := SessionSpec.TWENTY_MINUTES;
          }
          firstCycle := false;
        } else {
          timeRemaining := breakRemaining;
        }
      }
    }
  }
}
