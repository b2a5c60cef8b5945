/** `ScanStageController`: the scanning stage, its minimum display time, and the lock on transfer actions. */
module ScanStage {

  /** What the outside world can make happen; the last three need the corresponding timer to be running. */
  datatype Event = StartDelayed | StopDelayed(fromCancellation: bool) | CancelRequested
                 | ScanTimerFires | MinimumTimeElapses | CancelTimerFires

  /** `minimumTimers` counts the single-shot timers started and not fired. */
  datatype State = State(
    scanTimer: bool,
    cancelTimer: bool,
    minimumTimers: nat,
    scanning: bool,
    inMinimumTime: bool,
    lastCancelled: bool,
    actionsEnabled: bool)

  const INITIAL := State(false, false, 0, false, false, false, true)

  predicate Possible(s: State, e: Event) {
    match e
    case ScanTimerFires => s.scanTimer
    case MinimumTimeElapses => s.minimumTimers > 0
    case CancelTimerFires => s.cancelTimer
    case _ => true
  }

  function NormalStage(s: State): State {
    s.(actionsEnabled := true, cancelTimer := false)
  }

  function StopScan(s: State): State {
    var t := s.(scanning := false);
    if t.inMinimumTime then t else NormalStage(t)
  }

  function After(s: State, e: Event): State {
    match e
    case StartDelayed => s.(scanTimer := true)
    case StopDelayed(c) =>
      var t := s.(lastCancelled := c);
      if t.scanTimer then t.(scanTimer := false) else StopScan(t)
    case CancelRequested => s.(cancelTimer := true)
    case ScanTimerFires =>
      s.(scanTimer := false, scanning := true, inMinimumTime := true, minimumTimers := s.minimumTimers + 1,
          actionsEnabled := false)
    case MinimumTimeElapses =>
      var t := s.(minimumTimers := if s.minimumTimers > 0 then s.minimumTimers - 1 else 0, inMinimumTime := false);
      if t.scanning then t else NormalStage(t)
    case CancelTimerFires => s.(cancelTimer := false)
  }

  /** Actions are locked exactly while scanning or within the minimum time, and the minimum time is always
      about to end. */
  predicate Inv(s: State) {
    && (s.actionsEnabled <==> !s.scanning && !s.inMinimumTime)
    && (s.inMinimumTime ==> s.minimumTimers > 0)
  }

  function Run(s: State, events: seq<Event>): State {
    if events == [] then s else After(Run(s, events[..|events| - 1]), events[|events| - 1])
  }

  ghost predicate Feasible(s: State, events: seq<Event>) {
    forall n :: 0 <= n < |events| ==> Possible(Run(s, events[..n]), events[n])
  }

  lemma StepKeepsInv(s: State, e: Event)
    requires Inv(s) && Possible(s, e)
    ensures Inv(After(s, e))
  {}

  lemma {:induction false} RunKeepsInv(s: State, events: seq<Event>)
    requires Inv(s) && Feasible(s, events)
    ensures Inv(Run(s, events))
    decreases |events|
  {
    if events != [] {
      var init := events[..|events| - 1];
      FeasiblePrefix(s, events);
      RunKeepsInv(s, init);
      StepKeepsInv(Run(s, init), events[|events| - 1]);
    }
  }

  lemma FeasiblePrefix(s: State, events: seq<Event>)
    requires events != [] && Feasible(s, events)
    ensures Feasible(s, events[..|events| - 1])
    ensures Possible(Run(s, events[..|events| - 1]), events[|events| - 1])
  {
    var init := events[..|events| - 1];
    forall n | 0 <= n < |init| ensures Possible(Run(s, init[..n]), init[n]) {
      assert init[..n] == events[..n] && init[n] == events[n];
    }
  }

  /** In every reachable state the lock agrees with the flags. */
  lemma LockAgreesWithFlags(events: seq<Event>)
    requires Feasible(INITIAL, events)
    ensures var s := Run(INITIAL, events);
            && (s.actionsEnabled <==> !s.scanning && !s.inMinimumTime)
            && (s.inMinimumTime ==> s.minimumTimers > 0)
  {
    RunKeepsInv(INITIAL, events);
  }

  /** Nothing starts a scan: no scan timer fires. */
  predicate NoStart(events: seq<Event>) {
    forall n :: 0 <= n < |events| ==> events[n] != ScanTimerFires
  }

  lemma NoStartPrefix(events: seq<Event>)
    requires events != [] && NoStart(events)
    ensures var init, last := events[..|events| - 1], events[|events| - 1];
            && NoStart(init) && last != ScanTimerFires
            && (MinimumTimeElapses in events <==> MinimumTimeElapses in init || last == MinimumTimeElapses)
  {
    assert events == events[..|events| - 1] + [events[|events| - 1]];
  }

  lemma StepUnlocks(s: State, e: Event)
    requires Inv(s) && !s.scanning && Possible(s, e) && e != ScanTimerFires
    ensures var t := After(s, e);
            && Inv(t) && !t.scanning
            && (s.actionsEnabled || e == MinimumTimeElapses ==> t.actionsEnabled)
  {}

  /** After a scan that was under way is stopped, and until the next scan starts, actions are enabled as
      soon as one minimum-time timer has fired, and stay so; if they are still disabled, such a timer is running. */
  lemma {:induction false} StoppedScanUnlocks(s: State, events: seq<Event>)
    requires Inv(s) && !s.scanning && Feasible(s, events) && NoStart(events)
    ensures var t := Run(s, events);
            && Inv(t) && !t.scanning
            && (s.actionsEnabled || MinimumTimeElapses in events ==> t.actionsEnabled)
            && (!t.actionsEnabled ==> t.minimumTimers > 0)
    decreases |events|
  {
    if events != [] {
      var init, last := events[..|events| - 1], events[|events| - 1];
      FeasiblePrefix(s, events);
      NoStartPrefix(events);
      StoppedScanUnlocks(s, init);
      StepUnlocks(Run(s, init), last);
    }
  }

  /** A scan that began keeps the actions locked through its minimum time, whether it has been stopped or not. */
  lemma {:induction false} LockedForMinimumTime(s: State, events: seq<Event>)
    requires Inv(s) && s.inMinimumTime && Feasible(s, events) && MinimumTimeElapses !in events
    ensures Run(s, events).inMinimumTime && !Run(s, events).actionsEnabled
    decreases |events|
  {
    if events != [] {
      var init, last := events[..|events| - 1], events[|events| - 1];
      FeasiblePrefix(s, events);
      assert events == init + [last];
      LockedForMinimumTime(s, init);
      RunKeepsInv(s, init);
      StepKeepsInv(Run(s, init), last);
    }
  }

  /** So a scan stopped before any minimum time ends leaves the actions locked until one does. */
  lemma ScanLocks(s: State, events: seq<Event>)
    requires Inv(s) && s.scanTimer && Feasible(After(s, ScanTimerFires), events) && MinimumTimeElapses !in events
    ensures !Run(After(s, ScanTimerFires), events).actionsEnabled
  {
    StepKeepsInv(s, ScanTimerFires);
    LockedForMinimumTime(After(s, ScanTimerFires), events);
  }

  class ScanStageController {
    var s: State

    constructor ()
      ensures s == INITIAL
    {
      s := INITIAL;
    }

    method StartDelayedScanStage()
      modifies this
      ensures s == After(old(s), StartDelayed) == old(s).(scanTimer := true)
    {
      if !s.scanTimer {
        s := s.(scanTimer := true);
      }
    }

    method StopDelayedScanStage(fromCancellation: bool)
      modifies this
      ensures s == After(old(s), StopDelayed(fromCancellation))
      ensures s == if old(s).scanTimer then old(s).(lastCancelled := fromCancellation, scanTimer := false)
                   else if old(s).inMinimumTime then old(s).(lastCancelled := fromCancellation, scanning := false)
                   else old(s).(lastCancelled := fromCancellation, scanning := false,
                                actionsEnabled := true, cancelTimer := false)
    {
      s := s.(lastCancelled := fromCancellation);
      if s.scanTimer {
        s := s.(scanTimer := false);
      } else {
        StopScanStage();
      }
    }

    /** The scan timer's slot; the single-shot timer has just stopped itself. */
    method StartScanStage()
      requires s.scanTimer
      modifies this
      ensures s == After(old(s), ScanTimerFires)
      ensures s == old(s).(scanTimer := false, scanning := true, inMinimumTime := true,
                           minimumTimers := old(s).minimumTimers + 1, actionsEnabled := false)
    {
      s := s.(scanTimer := false);
      s := s.(scanning := true, inMinimumTime := true);
      s := s.(minimumTimers := s.minimumTimers + 1);
      s := s.(actionsEnabled := false);
    }

    method StopScanStage()
      modifies this
      ensures s == StopScan(old(s))
      ensures s == if old(s).inMinimumTime then old(s).(scanning := false)
                   else old(s).(scanning := false, actionsEnabled := true, cancelTimer := false)
    {
      s := s.(scanning := false);
      if !s.inMinimumTime {
        SetUiInNormalStage();
      }
    }

    method SetUiInNormalStage()
      modifies this
      ensures s == NormalStage(old(s)) == old(s).(actionsEnabled := true, cancelTimer := false)
    {
      s := s.(actionsEnabled := true);
      if s.cancelTimer {
        s := s.(cancelTimer := false);
      }
    }

    method SetDelayedCancellingStage()
      modifies this
      ensures s == After(old(s), CancelRequested) == old(s).(cancelTimer := true)
    {
      s := s.(cancelTimer := true);
    }

    method OnMinimumDisplayTimeElapsed()
      requires s.minimumTimers > 0
      modifies this
      ensures s == After(old(s), MinimumTimeElapses)
      ensures s == if old(s).scanning
                   then old(s).(minimumTimers := old(s).minimumTimers - 1, inMinimumTime := false)
                   else old(s).(minimumTimers := old(s).minimumTimers - 1, inMinimumTime := false,
                                actionsEnabled := true, cancelTimer := false)
    {
      s := s.(minimumTimers := s.minimumTimers - 1);
      s := s.(inMinimumTime := false);
      if !s.scanning {
        SetUiInNormalStage();
      }
    }
  }
}
