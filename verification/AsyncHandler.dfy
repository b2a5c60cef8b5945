/** `AsyncHandler`: producers, stoppers and one worker around a queue, a flag, a mutex and a condition
    variable. Each step below is atomic; any interleaving of steps is a run. */
module AsyncHandler {
  import opened Wrappers

  /** Where a caller's thread stands in `triggerHandlerThread` or `stopHandleThread`. */
  datatype Caller<T> =
    | Idle
    | Admitted(item: T)     // saw the flag up
    | PushLocked(item: T)   // holds the mutex
    | Pushed                // has pushed, still holds the mutex
    | PushOwes              // released the mutex, has not notified yet
    | StopLocked            // holds the mutex
    | StopCleared           // cleared the queue, holds the mutex
    | StopLowered           // lowered the flag, holds the mutex
    | StopOwes              // released the mutex, has not notified yet
    | Joining

  /** Where the worker stands in `runHandleThread`. */
  datatype Worker = AtLoop | Locking | Testing | Blocked | Waking | Woken | AtQueueTest | AtPop | Handling | Exited

  datatype Holder = Free | ByWorker | ByCaller(id: nat)

  /** Items are known by their ticket: the position of their push in `pushed`. */
  datatype State<T> = State(
    queue: seq<nat>,
    running: bool,
    mutex: Holder,
    worker: Worker,
    inHand: Option<nat>,
    callers: seq<Caller<T>>,
    pushed: seq<T>,
    dropped: set<nat>,
    handled: seq<nat>)

  /** What an idle caller does next. */
  datatype Call<T> = Trigger(item: T) | Stop

  datatype Step<T> = WorkerStep | Spurious | CallerStep(id: nat) | NewCall(id: nat, call: Call<T>)

  /** After the constructor: the flag is up and the worker about to loop. */
  predicate Init<T>(s: State<T>) {
    && s.queue == [] && s.running && s.mutex == Free && s.worker == AtLoop && s.inHand == None
    && s.pushed == [] && s.dropped == {} && s.handled == []
    && forall i :: 0 <= i < |s.callers| ==> s.callers[i].Idle?
  }

  function NotifyAll(w: Worker): Worker {
    if w == Blocked then Waking else w
  }

  function WorkerNext<T>(s: State<T>): Option<State<T>> {
    match s.worker
    case AtLoop => Some(s.(worker := if s.running then Locking else Exited))
    case Locking => if s.mutex == Free then Some(s.(mutex := ByWorker, worker := Testing)) else None
    case Testing => Some(s.(mutex := Free, worker := if s.queue != [] || !s.running then Woken else Blocked))
    case Blocked => None
    case Waking => if s.mutex == Free then Some(s.(mutex := ByWorker, worker := Testing)) else None
    case Woken => Some(s.(worker := if s.running then AtQueueTest else Exited))
    case AtQueueTest => Some(s.(worker := if s.queue != [] then AtPop else AtLoop))
    case AtPop =>
      if s.queue == [] then Some(s.(worker := AtQueueTest))
      else Some(s.(worker := Handling, inHand := Some(s.queue[0]), queue := s.queue[1..]))
    case Handling =>
      Some(s.(worker := AtQueueTest, inHand := None, handled := s.handled + Hand(s.inHand)))
    case Exited => None
  }

  function CallerNext<T>(s: State<T>, id: nat): Option<State<T>>
    requires id < |s.callers|
  {
    match s.callers[id]
    case Idle => None
    case Admitted(item) =>
      if s.mutex == Free then Some(s.(mutex := ByCaller(id), callers := s.callers[id := PushLocked(item)])) else None
    case PushLocked(item) =>
      Some(s.(queue := s.queue + [|s.pushed|], pushed := s.pushed + [item], callers := s.callers[id := Pushed]))
    case Pushed => Some(s.(mutex := Free, callers := s.callers[id := PushOwes]))
    case PushOwes => Some(s.(worker := NotifyAll(s.worker), callers := s.callers[id := Idle]))
    case StopLocked =>
      Some(s.(queue := [], dropped := s.dropped + (set k | k in s.queue), callers := s.callers[id := StopCleared]))
    case StopCleared =>
      if s.running then Some(s.(running := false, callers := s.callers[id := StopLowered]))
      else Some(s.(mutex := Free, callers := s.callers[id := Idle]))
    case StopLowered => Some(s.(mutex := Free, callers := s.callers[id := StopOwes]))
    case StopOwes => Some(s.(worker := NotifyAll(s.worker), callers := s.callers[id := Joining]))
    case Joining => if s.worker == Exited then Some(s.(callers := s.callers[id := Idle])) else None
  }

  function Next<T>(s: State<T>, step: Step<T>): Option<State<T>> {
    match step
    case WorkerStep => WorkerNext(s)
    case Spurious => if s.worker == Blocked then Some(s.(worker := Waking)) else None
    case CallerStep(id) => if id < |s.callers| then CallerNext(s, id) else None
    case NewCall(id, call) =>
      if id >= |s.callers| || !s.callers[id].Idle? then None
      else
        match call
        case Trigger(item) => Some(if s.running then s.(callers := s.callers[id := Admitted(item)]) else s)
        case Stop => if s.mutex == Free then Some(s.(mutex := ByCaller(id),
            callers := s.callers[id := StopLocked])) else None
  }

  /** The state after a run of steps, if every one of them was possible. */
  function Run<T>(s: State<T>, steps: seq<Step<T>>): Option<State<T>> {
    if steps == [] then Some(s)
    else
      match Run(s, steps[..|steps| - 1])
      case None => None
      case Some(t) => Next(t, steps[|steps| - 1])
  }

  // ----- The ledger -----

  function Hand(inHand: Option<nat>): seq<nat> {
    if inHand.Some? then [inHand.value] else []
  }

  /** The tickets below `n` that were not dropped, in order. */
  function Kept(n: nat, dropped: set<nat>): (r: seq<nat>)
    ensures forall i :: 0 <= i < |r| ==> r[i] < n && r[i] !in dropped
    ensures forall i, j :: 0 <= i < j < |r| ==> r[i] < r[j]
  {
    if n == 0 then [] else Kept(n - 1, dropped) + if n - 1 in dropped then [] else [n - 1]
  }

  lemma {:induction false} KeptIgnoresLater(n: nat, dropped: set<nat>, later: set<nat>)
    requires forall k :: k in later ==> k >= n
    ensures Kept(n, dropped + later) == Kept(n, dropped)
  {
    if n > 0 {
      KeptIgnoresLater(n - 1, dropped, later);
    }
  }

  lemma LastKept(before: seq<nat>, last: nat, front: seq<nat>, tail: seq<nat>)
    requires before + [last] == front + tail && tail != []
    ensures before == front + tail[..|tail| - 1] && tail == tail[..|tail| - 1] + [last]
  {
    assert (before + [last])[..|before|] == (front + tail)[..|before|];
    assert (before + [last])[|before|] == (front + tail)[|before|];
  }

  lemma SetOfSnoc(s: seq<nat>, last: nat)
    ensures (set k | k in s + [last]) == (set k | k in s) + {last}
  {}

  lemma DropOneMore(n: nat, dropped: set<nat>, front: seq<nat>, tail: seq<nat>)
    requires Kept(n, dropped + set k | k in tail) == front
    ensures Kept(n + 1, dropped + set k | k in tail + [n]) == front
  {
    var fewer := set k | k in tail;
    SetOfSnoc(tail, n);
    KeptIgnoresLater(n, dropped + fewer, {n});
    assert dropped + (set k | k in tail + [n]) == (dropped + fewer) + {n};
  }

  /** Dropping the tail of the kept tickets leaves the rest. */
  lemma {:induction false} KeptAfterDrop(n: nat, dropped: set<nat>, front: seq<nat>, tail: seq<nat>)
    requires Kept(n, dropped) == front + tail
    ensures Kept(n, dropped + set k | k in tail) == front
  {
    if n == 0 {
      assert front == [] && tail == [];
    } else if n - 1 in dropped {
      KeptAfterDrop(n - 1, dropped, front, tail);
    } else if tail == [] {
      assert dropped + (set k | k in tail) == dropped;
    } else {
      var shorter := tail[..|tail| - 1];
      LastKept(Kept(n - 1, dropped), n - 1, front, tail);
      KeptAfterDrop(n - 1, dropped, front, shorter);
      DropOneMore(n - 1, dropped, front, shorter);
    }
  }

  /** Everything pushed is, in push order, handled, in hand, queued, or was dropped by a clear. */
  ghost predicate Ledger<T>(s: State<T>) {
    && s.handled + Hand(s.inHand) + s.queue == Kept(|s.pushed|, s.dropped)
    && forall k :: k in s.dropped ==> k < |s.pushed|
  }

  // ----- The invariant -----

  predicate HoldsMutex<T>(c: Caller<T>) {
    c.PushLocked? || c.Pushed? || c.StopLocked? || c.StopCleared? || c.StopLowered?
  }

  /** Has changed what the worker waits for and has not called `notify_all` yet. */
  predicate Owes<T>(c: Caller<T>) {
    c.Pushed? || c.PushOwes? || c.StopLowered? || c.StopOwes?
  }

  predicate HasLowered<T>(c: Caller<T>) {
    c.StopLowered? || c.StopOwes? || c.Joining?
  }

  ghost predicate MutexHeld<T>(s: State<T>) {
    && (s.mutex == ByWorker <==> s.worker == Testing)
    && (s.mutex.ByCaller? ==> s.mutex.id < |s.callers|)
    && forall i :: 0 <= i < |s.callers| ==> (HoldsMutex(s.callers[i]) <==> s.mutex == ByCaller(i))
  }

  ghost predicate SomeoneOwes<T>(s: State<T>) {
    exists i :: 0 <= i < |s.callers| && Owes(s.callers[i])
  }

  ghost predicate Inv<T>(s: State<T>) {
    && MutexHeld(s)
    && Ledger(s)
    && (s.inHand.Some? <==> s.worker == Handling)
    && (s.worker == Blocked && (s.queue != [] || !s.running) ==> SomeoneOwes(s))
    && (forall i :: 0 <= i < |s.callers| && s.callers[i].StopCleared? ==> s.queue == [])
    && (forall i :: 0 <= i < |s.callers| && HasLowered(s.callers[i]) ==> !s.running)
    && (s.worker == Exited ==> !s.running)
  }

  lemma InitInv<T>(s: State<T>)
    requires Init(s)
    ensures Inv(s)
  {}

  lemma WorkerLedger<T>(s: State<T>)
    requires Inv(s) && WorkerNext(s).Some?
    ensures Ledger(WorkerNext(s).value)
  {
    var t := WorkerNext(s).value;
    assert t.handled + Hand(t.inHand) + t.queue == s.handled + Hand(s.inHand) + s.queue;
  }

  lemma WorkerKeepsInv<T>(s: State<T>)
    requires Inv(s) && WorkerNext(s).Some?
    ensures Inv(WorkerNext(s).value)
  {
    WorkerLedger(s);
  }

  lemma PushKeepsLedger<T>(s: State<T>, t: State<T>)
    requires Ledger(s) && |t.pushed| == |s.pushed| + 1 && t.queue == s.queue + [|s.pushed|]
    requires t.handled == s.handled && t.inHand == s.inHand && t.dropped == s.dropped
    ensures Ledger(t)
  {
    assert t.handled + Hand(t.inHand) + t.queue == s.handled + Hand(s.inHand) + s.queue + [|s.pushed|];
  }

  lemma ClearKeepsLedger<T>(s: State<T>, t: State<T>)
    requires Ledger(s) && t.pushed == s.pushed && t.queue == []
    requires t.handled == s.handled && t.inHand == s.inHand && t.dropped == s.dropped + set k | k in s.queue
    ensures Ledger(t)
  {
    var front := s.handled + Hand(s.inHand);
    KeptAfterDrop(|s.pushed|, s.dropped, front, s.queue);
    forall k | k in s.queue ensures k < |s.pushed| {
      var i :| 0 <= i < |s.queue| && s.queue[i] == k;
      assert (front + s.queue)[|front| + i] == k;
    }
    assert front + [] == front;
  }

  lemma CallerLedger<T>(s: State<T>, id: nat)
    requires Ledger(s) && id < |s.callers| && CallerNext(s, id).Some?
    ensures Ledger(CallerNext(s, id).value)
  {
    var t := CallerNext(s, id).value;
    match s.callers[id]
    case PushLocked(_) => PushKeepsLedger(s, t);
    case StopLocked => ClearKeepsLedger(s, t);
    case _ =>
  }

  lemma CallerMutex<T>(s: State<T>, id: nat)
    requires Inv(s) && id < |s.callers| && CallerNext(s, id).Some?
    ensures MutexHeld(CallerNext(s, id).value)
  {
    var t := CallerNext(s, id).value;
    assert t.callers == s.callers[id := t.callers[id]];
    assert t.worker == Testing <==> s.worker == Testing;
    assert HoldsMutex(s.callers[id]) <==> s.mutex == ByCaller(id);
  }

  lemma CallerWakes<T>(s: State<T>, id: nat)
    requires Inv(s) && id < |s.callers| && CallerNext(s, id).Some?
    ensures var t := CallerNext(s, id).value;
            t.worker == Blocked && (t.queue != [] || !t.running) ==> SomeoneOwes(t)
  {
    var t := CallerNext(s, id).value;
    if t.worker == Blocked && (t.queue != [] || !t.running) {
      assert s.worker == Blocked;
      if Owes(t.callers[id]) {
        assert SomeoneOwes(t);
      } else {
        var i :| 0 <= i < |s.callers| && Owes(s.callers[i]);
        assert i != id ==> t.callers[i] == s.callers[i];
        assert SomeoneOwes(t);
      }
    }
  }

  lemma CallerClears<T>(s: State<T>, id: nat)
    requires Inv(s) && id < |s.callers| && CallerNext(s, id).Some?
    ensures var t := CallerNext(s, id).value;
            forall i :: 0 <= i < |t.callers| && t.callers[i].StopCleared? ==> t.queue == []
  {
    var t := CallerNext(s, id).value;
    forall i | 0 <= i < |t.callers| && t.callers[i].StopCleared? ensures t.queue == [] {
      assert i != id ==> HoldsMutex(s.callers[i]) && s.mutex == ByCaller(i);
    }
  }

  lemma CallerLowers<T>(s: State<T>, id: nat)
    requires Inv(s) && id < |s.callers| && CallerNext(s, id).Some?
    ensures var t := CallerNext(s, id).value;
            forall i :: 0 <= i < |t.callers| && HasLowered(t.callers[i]) ==> !t.running
  {
    var t := CallerNext(s, id).value;
    forall i | 0 <= i < |t.callers| && HasLowered(t.callers[i]) ensures !t.running {
      assert i != id ==> HasLowered(s.callers[i]);
    }
  }

  lemma CallerKeepsInv<T>(s: State<T>, id: nat)
    requires Inv(s) && id < |s.callers| && CallerNext(s, id).Some?
    ensures Inv(CallerNext(s, id).value)
  {
    CallerMutex(s, id);
    CallerLedger(s, id);
    CallerWakes(s, id);
    CallerClears(s, id);
    CallerLowers(s, id);
    var t := CallerNext(s, id).value;
    assert t.inHand == s.inHand && (t.worker == Handling <==> s.worker == Handling);
  }

  lemma NewCallKeepsInv<T>(s: State<T>, id: nat, call: Call<T>)
    requires Inv(s) && Next(s, NewCall(id, call)).Some?
    ensures Inv(Next(s, NewCall(id, call)).value)
  {
    var t := Next(s, NewCall(id, call)).value;
    if t.worker == Blocked && (t.queue != [] || !t.running) {
      var i :| 0 <= i < |s.callers| && Owes(s.callers[i]);
      assert Owes(t.callers[i]);
    }
  }

  lemma StepKeepsInv<T>(s: State<T>, step: Step<T>)
    requires Inv(s) && Next(s, step).Some?
    ensures Inv(Next(s, step).value)
  {
    match step
    case WorkerStep => WorkerKeepsInv(s);
    case Spurious =>
    case CallerStep(id) => CallerKeepsInv(s, id);
    case NewCall(id, call) => NewCallKeepsInv(s, id, call);
  }

  lemma {:induction false} RunKeepsInv<T>(s: State<T>, steps: seq<Step<T>>)
    requires Inv(s) && Run(s, steps).Some?
    ensures Inv(Run(s, steps).value)
    decreases |steps|
  {
    if steps != [] {
      RunKeepsInv(s, steps[..|steps| - 1]);
      StepKeepsInv(Run(s, steps[..|steps| - 1]).value, steps[|steps| - 1]);
    }
  }

  /** No wake-up is lost: in every reachable state, a worker blocked with work to do or a lowered flag
      to see is about to be notified. */
  lemma NoLostWakeUp<T>(s: State<T>, steps: seq<Step<T>>)
    requires Init(s) && Run(s, steps).Some?
    ensures var t := Run(s, steps).value;
            t.worker == Blocked && (t.queue != [] || !t.running) ==> SomeoneOwes(t)
  {
    InitInv(s);
    RunKeepsInv(s, steps);
  }

  /** In every run items are handled in push order and at most once, and none disappears unless a stop cleared it. */
  lemma HandledInOrder<T>(s: State<T>, steps: seq<Step<T>>)
    requires Init(s) && Run(s, steps).Some?
    ensures var t := Run(s, steps).value;
            && t.handled + Hand(t.inHand) + t.queue == Kept(|t.pushed|, t.dropped)
            && forall i, j :: 0 <= i < j < |t.handled| ==> t.handled[i] < t.handled[j] < |t.pushed|
  {
    InitInv(s);
    RunKeepsInv(s, steps);
    var t := Run(s, steps).value;
    var all := t.handled + Hand(t.inHand) + t.queue;
    assert forall i :: 0 <= i < |t.handled| ==> t.handled[i] == all[i];
  }

  // ----- Stopping -----

  predicate PastTheTest<T>(c: Caller<T>) {
    c.Admitted? || c.PushLocked?
  }

  /** Producers that have seen the flag up and not pushed yet. */
  function Late<T>(callers: seq<Caller<T>>): nat {
    if callers == [] then 0 else (if PastTheTest(callers[0]) then 1 else 0) + Late(callers[1..])
  }

  lemma {:induction false} LateUpdate<T>(callers: seq<Caller<T>>, id: nat, c: Caller<T>)
    requires id < |callers|
    ensures Late(callers[id := c]) ==
            Late(callers) - (if PastTheTest(callers[id]) then 1 else 0) + (if PastTheTest(c) then 1 else 0)
    decreases |callers|
  {
    if id == 0 {
      assert callers[id := c][1..] == callers[1..];
    } else {
      LateUpdate(callers[1..], id - 1, c);
      assert callers[id := c][1..] == callers[1..][id - 1 := c];
    }
  }

  /** Handled, in hand, queued, or about to be pushed. */
  function Due<T>(s: State<T>): nat {
    |s.handled| + |Hand(s.inHand)| + |s.queue| + Late(s.callers)
  }

  lemma StoppedCallerAddsNothing<T>(s: State<T>, id: nat)
    requires !s.running && id < |s.callers| && CallerNext(s, id).Some?
    ensures !CallerNext(s, id).value.running && Due(CallerNext(s, id).value) <= Due(s)
  {
    LateUpdate(s.callers, id, CallerNext(s, id).value.callers[id]);
  }

  lemma StoppedNewCallAddsNothing<T>(s: State<T>, id: nat, call: Call<T>)
    requires !s.running && Next(s, NewCall(id, call)).Some?
    ensures !Next(s, NewCall(id, call)).value.running && Due(Next(s, NewCall(id, call)).value) <= Due(s)
  {
    LateUpdate(s.callers, id, StopLocked);
  }

  lemma StoppedWorkerAddsNothing<T>(s: State<T>)
    requires Inv(s) && !s.running && WorkerNext(s).Some?
    ensures !WorkerNext(s).value.running && Due(WorkerNext(s).value) <= Due(s)
  {}

  lemma StoppedStepAddsNothing<T>(s: State<T>, step: Step<T>)
    requires Inv(s) && !s.running && Next(s, step).Some?
    ensures !Next(s, step).value.running && Due(Next(s, step).value) <= Due(s)
  {
    match step
    case WorkerStep => StoppedWorkerAddsNothing(s);
    case Spurious =>
    case CallerStep(id) => StoppedCallerAddsNothing(s, id);
    case NewCall(id, call) => StoppedNewCallAddsNothing(s, id, call);
  }

  lemma {:induction false} StoppedRunAddsNothing<T>(s: State<T>, steps: seq<Step<T>>)
    requires Inv(s) && !s.running && Run(s, steps).Some?
    ensures !Run(s, steps).value.running && Due(Run(s, steps).value) <= Due(s)
    decreases |steps|
  {
    if steps != [] {
      var init := steps[..|steps| - 1];
      StoppedRunAddsNothing(s, init);
      RunKeepsInv(s, init);
      StoppedStepAddsNothing(Run(s, init).value, steps[|steps| - 1]);
    }
  }

  /** From the step that lowers the flag on, whatever happens, the worker handles at most the item in its
      hand and one item for each producer that had already seen the flag up. */
  lemma FewHandledAfterStop<T>(s: State<T>, id: nat, after: seq<Step<T>>)
    requires Inv(s) && s.running && id < |s.callers| && s.callers[id].StopCleared?
    requires Run(CallerNext(s, id).value, after).Some?
    ensures |Run(CallerNext(s, id).value, after).value.handled| <= |s.handled| + |Hand(s.inHand)| + Late(s.callers)
  {
    var lowered := CallerNext(s, id).value;
    CallerKeepsInv(s, id);
    LateUpdate(s.callers, id, StopLowered);
    StoppedRunAddsNothing(lowered, after);
  }

  // ----- Left alone, the threads come to rest -----

  /** How many steps the worker may still take, by the flag and the queue it will find. */
  function WorkerWork(running: bool, w: Worker, queued: nat): nat {
    if running then
      match w
      case Exited => 0
      case Blocked => if queued > 0 then 8 * queued + 5 else 0
      case Testing => if queued > 0 then 8 * queued + 3 else 2
      case Locking => if queued > 0 then 8 * queued + 4 else 3
      case Waking => if queued > 0 then 8 * queued + 4 else 3
      case AtLoop => if queued > 0 then 8 * queued + 5 else 4
      case AtQueueTest => if queued > 0 then 8 * queued + 1 else 5
      case AtPop => if queued > 0 then 8 * queued else 6
      case Woken => if queued > 0 then 8 * queued + 2 else 6
      case Handling => 8 * queued + 7
    else
      match w
      case Exited => 0
      case AtLoop => 1
      case Woken => 1
      case Testing => 2
      case Locking => 3
      case Waking => 3
      case Blocked => 4
      case AtQueueTest => 5 * queued + 2
      case AtPop => if queued > 0 then 5 * queued + 1 else 3
      case Handling => 5 * queued + 3
  }

  function CallerWork<T>(c: Caller<T>): nat {
    match c
    case Idle => 0
    case PushOwes => 4
    case Pushed => 5
    case PushLocked(_) => 19
    case Admitted(_) => 20
    case Joining => 1
    case StopOwes => 5
    case StopLowered => 6
    case StopCleared => 14
    case StopLocked => 15
  }

  function CallersWork<T>(callers: seq<Caller<T>>): nat {
    if callers == [] then 0 else CallerWork(callers[0]) + CallersWork(callers[1..])
  }

  lemma {:induction false} CallersWorkUpdate<T>(callers: seq<Caller<T>>, id: nat, c: Caller<T>)
    requires id < |callers|
    ensures CallersWork(callers[id := c]) == CallersWork(callers) - CallerWork(callers[id]) + CallerWork(c)
    decreases |callers|
  {
    if id == 0 {
      assert callers[id := c][1..] == callers[1..];
    } else {
      CallersWorkUpdate(callers[1..], id - 1, c);
      assert callers[id := c][1..] == callers[1..][id - 1 := c];
    }
  }

  function Work<T>(s: State<T>): nat {
    WorkerWork(s.running, s.worker, |s.queue|) + CallersWork(s.callers)
  }

  /** A step of the worker or of a call under way; once the flag is down, also a spurious wake-up. */
  predicate IsProgress<T>(running: bool, step: Step<T>) {
    step.WorkerStep? || step.CallerStep? || (step.Spurious? && !running)
  }

  lemma WorkerWorks<T>(s: State<T>)
    requires Inv(s) && WorkerNext(s).Some?
    ensures Work(WorkerNext(s).value) < Work(s)
  {}

  lemma PushCosts(running: bool, w: Worker, queued: nat)
    ensures WorkerWork(running, w, queued + 1) <= WorkerWork(running, w, queued) + 13
    ensures WorkerWork(running, w, 0) <= WorkerWork(running, w, queued)
    ensures WorkerWork(running, NotifyAll(w), queued) <= WorkerWork(running, w, queued) + 3
    ensures WorkerWork(false, w, 0) <= WorkerWork(true, w, 0) + 4
  {}

  lemma CallerSpends<T>(s: State<T>, id: nat)
    requires id < |s.callers| && CallerNext(s, id).Some? && (s.callers[id].StopCleared? ==> s.queue == [])
    ensures var t := CallerNext(s, id).value;
            WorkerWork(t.running, t.worker, |t.queue|) + CallerWork(t.callers[id]) <
            WorkerWork(s.running, s.worker, |s.queue|) + CallerWork(s.callers[id])
  {
    PushCosts(s.running, s.worker, |s.queue|);
  }

  lemma CallerWorks<T>(s: State<T>, id: nat)
    requires Inv(s) && id < |s.callers| && CallerNext(s, id).Some?
    ensures Work(CallerNext(s, id).value) < Work(s)
  {
    var t := CallerNext(s, id).value;
    CallerSpends(s, id);
    CallersWorkUpdate(s.callers, id, t.callers[id]);
    assert t.callers == s.callers[id := t.callers[id]];
  }

  lemma StepWorks<T>(s: State<T>, step: Step<T>)
    requires Inv(s) && IsProgress(s.running, step) && Next(s, step).Some?
    ensures Work(Next(s, step).value) < Work(s)
  {
    match step
    case WorkerStep => WorkerWorks(s);
    case Spurious =>
    case CallerStep(id) => CallerWorks(s, id);
  }

  lemma {:induction false} FlagStaysDown<T>(s: State<T>, steps: seq<Step<T>>)
    requires !s.running && Run(s, steps).Some?
    ensures !Run(s, steps).value.running
    decreases |steps|
  {
    if steps != [] {
      FlagStaysDown(s, steps[..|steps| - 1]);
    }
  }

  /** Without new calls at most `Work(s)` steps are left, in every interleaving of the calls under way. */
  lemma {:induction false} RunsAreShort<T>(s: State<T>, steps: seq<Step<T>>)
    requires Inv(s) && Run(s, steps).Some?
    requires forall k :: 0 <= k < |steps| ==> IsProgress(s.running, steps[k])
    ensures |steps| + Work(Run(s, steps).value) <= Work(s)
    decreases |steps|
  {
    if steps != [] {
      var init := steps[..|steps| - 1];
      RunsAreShort(s, init);
      RunKeepsInv(s, init);
      if !s.running {
        FlagStaysDown(s, init);
      }
      StepWorks(Run(s, init).value, steps[|steps| - 1]);
    }
  }

  /** No thread can take a step of its own. */
  ghost predicate AtRest<T>(s: State<T>) {
    WorkerNext(s).None? && forall id :: 0 <= id < |s.callers| ==> CallerNext(s, id).None?
  }

  lemma HolderCanStep<T>(s: State<T>)
    requires MutexHeld(s) && s.mutex.ByCaller?
    ensures CallerNext(s, s.mutex.id).Some?
  {
    assert HoldsMutex(s.callers[s.mutex.id]);
  }

  lemma RestingWorker<T>(s: State<T>)
    requires Inv(s) && AtRest(s)
    ensures s.mutex == Free && s.worker in {Blocked, Exited}
  {
    if s.mutex.ByCaller? {
      HolderCanStep(s);
    }
  }

  /** And when no step is left, no caller is stuck: every call has returned, and either the worker waits with
      nothing queued, every item pushed having been handled or cleared, or the flag is down and the worker gone. */
  lemma RestMeansDone<T>(s: State<T>)
    requires Inv(s) && AtRest(s)
    ensures forall i :: 0 <= i < |s.callers| ==> s.callers[i].Idle?
    ensures if s.running then s.worker == Blocked && s.handled == Kept(|s.pushed|, s.dropped) else s.worker == Exited
  {
    RestingWorker(s);
    if s.worker == Blocked && (s.queue != [] || !s.running) {
      var i :| 0 <= i < |s.callers| && Owes(s.callers[i]);
      assert CallerNext(s, i).None?;
    }
    forall i | 0 <= i < |s.callers| ensures s.callers[i].Idle? {
      assert CallerNext(s, i).None?;
      assert !HoldsMutex(s.callers[i]);
    }
  }

  // ----- What is triggered is pushed, and what is pushed is handled or cleared -----

  /** Whether a step triggers `x` while the flag is up. */
  ghost predicate Triggers<T>(s: State<T>, step: Step<T>, x: T) {
    s.running && step.NewCall? && step.call == Trigger(x)
  }

  /** How often `x` was triggered while the flag was up, over a run. */
  ghost function Triggered<T>(s: State<T>, steps: seq<Step<T>>, x: T): nat {
    if steps == [] then 0
    else
      var init, last := steps[..|steps| - 1], steps[|steps| - 1];
      Triggered(s, init, x) + if Run(s, init).Some? && Triggers(Run(s, init).value, last, x) then 1 else 0
  }

  /** Whether a caller past the flag test has `x` in its hand. */
  ghost predicate Carries<T>(c: Caller<T>, x: T) {
    PastTheTest(c) && c.item == x
  }

  /** How many of them do. */
  ghost function Carried<T>(callers: seq<Caller<T>>, x: T): nat {
    if callers == [] then 0 else (if Carries(callers[0], x) then 1 else 0) + Carried(callers[1..], x)
  }

  lemma {:induction false} CarriedUpdate<T>(callers: seq<Caller<T>>, id: nat, c: Caller<T>, x: T)
    requires id < |callers|
    ensures Carried(callers[id := c], x) ==
            Carried(callers, x) - (if Carries(callers[id], x) then 1 else 0) + (if Carries(c, x) then 1 else 0)
    decreases |callers|
  {
    if id == 0 {
      assert callers[id := c][1..] == callers[1..];
    } else {
      CarriedUpdate(callers[1..], id - 1, c, x);
      assert callers[id := c][1..] == callers[1..][id - 1 := c];
    }
  }

  lemma {:induction false} NothingCarried<T>(callers: seq<Caller<T>>, x: T)
    requires forall i :: 0 <= i < |callers| ==> callers[i].Idle?
    ensures Carried(callers, x) == 0
    decreases |callers|
  {
    if callers != [] {
      assert callers[0].Idle?;
      NothingCarried(callers[1..], x);
    }
  }

  /** How often `x` has been pushed. */
  ghost function TimesPushed<T>(pushed: seq<T>, x: T): nat {
    multiset(pushed)[x]
  }

  lemma PushedOneMore<T>(pushed: seq<T>, item: T, x: T)
    ensures TimesPushed(pushed + [item], x) == TimesPushed(pushed, x) + if item == x then 1 else 0
  {}

  lemma CallerCarries<T>(s: State<T>, id: nat, x: T)
    requires id < |s.callers| && CallerNext(s, id).Some?
    ensures var t := CallerNext(s, id).value;
            TimesPushed(t.pushed, x) + Carried(t.callers, x) == TimesPushed(s.pushed, x) + Carried(s.callers, x)
  {
    var t := CallerNext(s, id).value;
    CarriedUpdate(s.callers, id, t.callers[id], x);
    assert t.callers == s.callers[id := t.callers[id]];
    if s.callers[id].PushLocked? {
      PushedOneMore(s.pushed, s.callers[id].item, x);
    }
  }

  lemma StepCarries<T>(s: State<T>, step: Step<T>, x: T)
    requires Next(s, step).Some?
    ensures var t := Next(s, step).value;
            TimesPushed(t.pushed, x) + Carried(t.callers, x) ==
            TimesPushed(s.pushed, x) + Carried(s.callers, x) + if Triggers(s, step, x) then 1 else 0
  {
    var t := Next(s, step).value;
    match step
    case WorkerStep =>
    case Spurious =>
    case CallerStep(id) => CallerCarries(s, id, x);
    case NewCall(id, call) =>
      CarriedUpdate(s.callers, id, t.callers[id], x);
      assert t.callers == s.callers[id := t.callers[id]];
  }

  /** In every run, each item has been pushed, or is in the hand of a caller about to push it, exactly as often as it
      was triggered while the flag was up. */
  lemma {:induction false} TriggeredIsPushed<T>(s: State<T>, steps: seq<Step<T>>, x: T)
    requires Init(s) && Run(s, steps).Some?
    ensures var t := Run(s, steps).value;
            TimesPushed(t.pushed, x) + Carried(t.callers, x) == Triggered(s, steps, x)
    decreases |steps|
  {
    if steps == [] {
      NothingCarried(s.callers, x);
    } else {
      var init := steps[..|steps| - 1];
      TriggeredIsPushed(s, init, x);
      StepCarries(Run(s, init).value, steps[|steps| - 1], x);
    }
  }

  lemma AllPushedAtRest<T>(s: State<T>, steps: seq<Step<T>>, x: T)
    requires Init(s) && Run(s, steps).Some? && AtRest(Run(s, steps).value)
    ensures TimesPushed(Run(s, steps).value.pushed, x) == Triggered(s, steps, x)
  {
    InitInv(s);
    RunKeepsInv(s, steps);
    RestMeansDone(Run(s, steps).value);
    TriggeredIsPushed(s, steps, x);
    NothingCarried(Run(s, steps).value.callers, x);
  }

  // ----- Only a stop drops items, and it drops what is queued -----

  lemma StepDrops<T>(s: State<T>, step: Step<T>)
    requires Next(s, step).Some?
    ensures var t := Next(s, step).value;
            t.dropped ==
              if step.CallerStep? && step.id < |s.callers| && s.callers[step.id].StopLocked?
              then s.dropped + set k | k in s.queue
              else s.dropped
  {}

  predicate IsStop<T>(step: Step<T>) {
    step.NewCall? && step.call.Stop?
  }

  predicate Stopping<T>(c: Caller<T>) {
    c.StopLocked? || c.StopCleared? || HasLowered(c)
  }

  ghost predicate NoneStopping<T>(s: State<T>) {
    s.running && s.dropped == {} && forall i :: 0 <= i < |s.callers| ==> !Stopping(s.callers[i])
  }

  lemma StepWithoutStop<T>(s: State<T>, step: Step<T>)
    requires NoneStopping(s) && Next(s, step).Some? && !IsStop(step)
    ensures NoneStopping(Next(s, step).value)
  {
    var t := Next(s, step).value;
    StepDrops(s, step);
    forall i | 0 <= i < |t.callers| ensures !Stopping(t.callers[i]) {
      assert !Stopping(s.callers[i]);
    }
  }

  lemma {:induction false} WithoutStops<T>(s: State<T>, steps: seq<Step<T>>)
    requires NoneStopping(s) && Run(s, steps).Some?
    requires forall n :: 0 <= n < |steps| ==> !IsStop(steps[n])
    ensures NoneStopping(Run(s, steps).value)
    decreases |steps|
  {
    if steps != [] {
      var init := steps[..|steps| - 1];
      WithoutStops(s, init);
      StepWithoutStop(Run(s, init).value, steps[|steps| - 1]);
    }
  }

  lemma {:induction false} KeptAll(n: nat)
    ensures |Kept(n, {})| == n && forall i :: 0 <= i < n ==> Kept(n, {})[i] == i
  {
    if n > 0 {
      KeptAll(n - 1);
    }
  }

  /** Without a stop, once the threads come to rest everything triggered has been handled, each push once and in
      push order. */
  lemma TriggeredIsHandled<T>(s: State<T>, steps: seq<Step<T>>)
    requires Init(s) && Run(s, steps).Some? && AtRest(Run(s, steps).value)
    requires forall n :: 0 <= n < |steps| ==> !IsStop(steps[n])
    ensures var t := Run(s, steps).value;
            && (forall x :: TimesPushed(t.pushed, x) == Triggered(s, steps, x))
            && t.running && |t.handled| == |t.pushed| && forall i :: 0 <= i < |t.handled| ==> t.handled[i] == i
  {
    var t := Run(s, steps).value;
    InitInv(s);
    RunKeepsInv(s, steps);
    WithoutStops(s, steps);
    RestMeansDone(t);
    KeptAll(|t.pushed|);
    forall x ensures TimesPushed(t.pushed, x) == Triggered(s, steps, x) {
      AllPushedAtRest(s, steps, x);
    }
    assert t.handled + [] + [] == t.handled;
  }

  /** With stops, everything triggered has been pushed by then, and was handled, cleared by a stop or, when the
      worker is gone, left in the queue. */
  lemma TriggeredIsAccountedFor<T>(s: State<T>, steps: seq<Step<T>>)
    requires Init(s) && Run(s, steps).Some? && AtRest(Run(s, steps).value)
    ensures var t := Run(s, steps).value;
            && (forall x :: TimesPushed(t.pushed, x) == Triggered(s, steps, x))
            && t.handled + t.queue == Kept(|t.pushed|, t.dropped)
            && (t.running ==> t.queue == [])
  {
    var t := Run(s, steps).value;
    InitInv(s);
    RunKeepsInv(s, steps);
    RestMeansDone(t);
    forall x ensures TimesPushed(t.pushed, x) == Triggered(s, steps, x) {
      AllPushedAtRest(s, steps, x);
    }
    assert t.inHand == None;
    assert t.handled + [] + t.queue == t.handled + t.queue;
  }

  // ----- A stop stops -----

  ghost predicate SomeStopping<T>(s: State<T>) {
    exists i :: 0 <= i < |s.callers| && (s.callers[i].StopLocked? || s.callers[i].StopCleared?)
  }

  lemma StepKeepsStopping<T>(s: State<T>, step: Step<T>)
    requires Next(s, step).Some?
    requires !s.running || SomeStopping(s)
    ensures !Next(s, step).value.running || SomeStopping(Next(s, step).value)
  {
    var t := Next(s, step).value;
    if s.running {
      var i :| 0 <= i < |s.callers| && (s.callers[i].StopLocked? || s.callers[i].StopCleared?);
      assert t.running ==> t.callers[i].StopLocked? || t.callers[i].StopCleared?;
    }
  }

  lemma StopBegins<T>(s: State<T>, step: Step<T>)
    requires Next(s, step).Some? && IsStop(step)
    ensures SomeStopping(Next(s, step).value)
  {
    assert Next(s, step).value.callers[step.id].StopLocked?;
  }

  lemma {:induction false} StopLeavesItsMark<T>(s: State<T>, steps: seq<Step<T>>)
    requires Run(s, steps).Some? && exists n :: 0 <= n < |steps| && IsStop(steps[n])
    ensures !Run(s, steps).value.running || SomeStopping(Run(s, steps).value)
    decreases |steps|
  {
    var init, last := steps[..|steps| - 1], steps[|steps| - 1];
    var n :| 0 <= n < |steps| && IsStop(steps[n]);
    if n == |steps| - 1 {
      StopBegins(Run(s, init).value, last);
    } else {
      assert IsStop(init[n]);
      StopLeavesItsMark(s, init);
      StepKeepsStopping(Run(s, init).value, last);
    }
  }

  /** After a run with a stop, once the threads come to rest the flag is down and the worker has exited. */
  lemma StopStops<T>(s: State<T>, steps: seq<Step<T>>)
    requires Init(s) && Run(s, steps).Some? && AtRest(Run(s, steps).value)
    requires exists n :: 0 <= n < |steps| && IsStop(steps[n])
    ensures !Run(s, steps).value.running && Run(s, steps).value.worker == Exited
  {
    InitInv(s);
    RunKeepsInv(s, steps);
    StopLeavesItsMark(s, steps);
    RestMeansDone(Run(s, steps).value);
  }
}
