/**
 * Sessions driven by a sequence of ticks. The countdown is recomputed from
 * the phase's anchor on every tick rather than decremented, so the state
 * after any number of ticks inside one phase is the state after the last
 * of them alone.
 */
module SessionRuns {
  import opened SessionSpec

  /** The state after a run of ticks and how many notifications it sent. */
  datatype RunResult = RunResult(last: SessionState, notifications: nat)

  /** Ticks at the instants of ts, in order, starting from s. */
  function Run(s: SessionState, ts: seq<int>): (r: RunResult)
    ensures r.notifications <= |ts|
    decreases |ts|
  {
    if ts == [] then RunResult(s, 0)
    else
      var r := Run(s, ts[..|ts| - 1]);
      var t := Step(r.last, ts[|ts| - 1]);
      RunResult(t.next, r.notifications + (if t.notify then 1 else 0))
  }

  /** At time t the phase of s is still going: a running work phase below
      the cap and short of twenty minutes, or a break short of twenty seconds. */
  predicate InPhase(s: SessionState, t: int) {
    match PhaseOf(s)
    case Idle => false
    case Working => !CapReached(s, t) && t - s.phaseStart < TWENTY_MINUTES
    case OnBreak => t - s.phaseStart < TWENTY_SECONDS
  }

  /** A tick inside the phase changes only the two displayed durations, and
      the next tick inside the phase overwrites both of them. */
  lemma StepWithinPhase(s: SessionState, a: int, b: int)
    requires InPhase(s, a)
    ensures var n := Step(s, a).next;
      && !Step(s, a).notify
      && n == s.(timeRemaining := n.timeRemaining, sessionElapsed := n.sessionElapsed)
      && (InPhase(s, b) ==> InPhase(n, b) && Step(n, b) == Step(s, b))
  {
  }

  /** No drift: however many ticks fall inside a phase, and at whatever
      instants, the result is that of the last tick alone, and none of them
      notifies. */
  lemma {:induction false} NoDrift(s: SessionState, ts: seq<int>)
    requires |ts| > 0
    requires forall i :: 0 <= i < |ts| ==> InPhase(s, ts[i])
    ensures Run(s, ts) == RunResult(Step(s, ts[|ts| - 1]).next, 0)
  {
    var n := |ts|;
    var front := ts[..n - 1];
    if n == 1 {
      assert front == [];
      StepWithinPhase(s, ts[0], ts[0]);
    } else {
      assert forall i :: 0 <= i < |front| ==> front[i] == ts[i];
      NoDrift(s, front);
      StepWithinPhase(s, ts[n - 2], ts[n - 1]);
    }
  }

  /** Ticks never change the setting or the cap the session captured. */
  lemma {:induction false} RunKeepsCap(s: SessionState, ts: seq<int>)
    ensures Run(s, ts).last.workDuration == s.workDuration
    ensures Run(s, ts).last.sessionHours == s.sessionHours
    decreases |ts|
  {
    if ts != [] {
      RunKeepsCap(s, ts[..|ts| - 1]);
    }
  }

  /** A first cycle with late ticks, no cap: the work phase ends on the first
      tick at least twenty minutes after Start (with one notification), the
      break on the first tick at least twenty seconds after that; the new
      work phase is anchored at that tick, so lateness does not add up: its
      break comes exactly twenty minutes later. The first break, created by
      startSession, does not reset the countdown: a break that ended on its
      first tick leaves it at zero. */
  lemma FirstCycle(t0: int, d1: nat, d2: nat, t: int)
    requires t0 + TWENTY_MINUTES + TWENTY_SECONDS + d1 + d2 <= t
    ensures var w := t0 + TWENTY_MINUTES + d1;
      var b := w + TWENTY_SECONDS + d2;
      var r := Run(Start(Initial(), t0), [w, b]);
      && r.notifications == 1 && PhaseOf(r.last) == Working
      && r.last.phaseStart == b && r.last.timeRemaining == 0 && !r.last.firstCycle
      && (Step(r.last, t).notify <==> t >= b + TWENTY_MINUTES)
      && (t >= b + TWENTY_MINUTES ==> PhaseOf(Step(r.last, t).next) == OnBreak)
  {
    var s0 := Start(Initial(), t0);
    var w := t0 + TWENTY_MINUTES + d1;
    var b := w + TWENTY_SECONDS + d2;
    assert [w, b][..1] == [w];
    assert [w][..0] == [];
    WorkToBreak(s0, w);
    var s1 := Step(s0, w).next;
    assert Run(s0, [w]) == RunResult(s1, 1);
    BreakToWork(s1, b);
    var s2 := Step(s1, b).next;
    assert Run(s0, [w, b]) == RunResult(s2, 1);
    NotifyIff(s2, t);
  }

  /** Every later break, run by startBreakCycle, resets the countdown to a
      full twenty minutes when it ends; each work phase ended with one
      notification. */
  lemma LaterBreakResetsCountdown(t0: int)
    ensures var w1 := t0 + TWENTY_MINUTES;
      var b1 := w1 + TWENTY_SECONDS;
      var w2 := b1 + TWENTY_MINUTES;
      var b2 := w2 + TWENTY_SECONDS;
      var r := Run(Start(Initial(), t0), [w1, b1, w2, b2]);
      && r.notifications == 2 && PhaseOf(r.last) == Working
      && r.last.phaseStart == b2 && r.last.timeRemaining == TWENTY_MINUTES
  {
    var w1 := t0 + TWENTY_MINUTES;
    var b1 := w1 + TWENTY_SECONDS;
    var w2 := b1 + TWENTY_MINUTES;
    var b2 := w2 + TWENTY_SECONDS;
    var ts := [w1, b1, w2, b2];
    assert ts[..3] == [w1, b1, w2];
    assert [w1, b1, w2][..2] == [w1, b1];
    var s0 := Start(Initial(), t0);
    FirstCycle(t0, 0, 0, w2);
    var s2 := Run(s0, [w1, b1]).last;
    RunKeepsCap(s0, [w1, b1]);
    WorkToBreak(s2, w2);
    var s3 := Step(s2, w2).next;
    assert Run(s0, [w1, b1, w2]) == RunResult(s3, 2);
    BreakToWork(s3, b2);
    assert Run(s0, ts) == RunResult(Step(s3, b2).next, 2);
  }
}
