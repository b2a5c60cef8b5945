/** `AccountDetailsManager`: which account details are being fetched, and which are still to be. */
module AccountDetails {
  import opened Wrappers

  datatype Flag = STORAGE | TRANSFER | PRO

  /** A request sent to the servers: what it asks for and the storage reasons it carries. */
  datatype Request = Request(flags: set<Flag>, reasons: set<nat>)

  /** `outstanding` lists the requests sent since the last reset and not answered. */
  datatype State = State(inflight: set<Flag>, queued: set<Flag>, reasons: set<nat>, outstanding: seq<Request>)

  const NOTHING := State({}, {}, {}, [])

  /** `updateUserStats` once the throttle has decided; a negative `source` names no reason. */
  function Demand(s: State, flags: set<Flag>, source: int, allowed: bool): State {
    var toFetch := flags - s.inflight;
    if toFetch == {} then s
    else
      var reasons := if STORAGE in toFetch && source >= 0 then s.reasons + {source} else s.reasons;
      if allowed then
        s.(outstanding := s.outstanding + [Request(toFetch, if STORAGE in toFetch then reasons else {})],
           reasons := if STORAGE in toFetch then {} else reasons,
           inflight := s.inflight + toFetch)
      else s.(queued := s.queued + toFetch, reasons := reasons)
  }

  /** `periodicUpdate` while the application runs. */
  function Periodic(s: State, allowed: bool): State {
    if s.queued == {} then s else Demand(s.(queued := {}), s.queued, -1, allowed)
  }

  function Without(rs: seq<Request>, k: nat): seq<Request>
    requires k < |rs|
  {
    rs[..k] + rs[k + 1..]
  }

  /** The reply to outstanding request `k`, echoing its flags. */
  function Reply(s: State, k: nat): State
    requires k < |s.outstanding|
  {
    s.(inflight := s.inflight - s.outstanding[k].flags, outstanding := Without(s.outstanding, k))
  }

  datatype Op = Demanded(flags: set<Flag>, source: int, allowed: bool) | Ticked(allowed: bool) | Replied(k: nat)

  predicate Possible(s: State, op: Op) {
    op.Replied? ==> op.k < |s.outstanding|
  }

  function Apply(s: State, op: Op): State
    requires Possible(s, op)
  {
    match op
    case Demanded(flags, source, allowed) => Demand(s, flags, source, allowed)
    case Ticked(allowed) => Periodic(s, allowed)
    case Replied(k) => Reply(s, k)
  }

  function Run(s: State, ops: seq<Op>): Option<State> {
    if ops == [] then Some(s)
    else
      match Run(s, ops[..|ops| - 1])
      case None => None
      case Some(t) => if Possible(t, ops[|ops| - 1]) then Some(Apply(t, ops[|ops| - 1])) else None
  }

  function Union(rs: seq<Request>): set<Flag> {
    if rs == [] then {} else rs[0].flags + Union(rs[1..])
  }

  ghost predicate Disjoint(rs: seq<Request>) {
    forall i, j :: 0 <= i < j < |rs| ==> rs[i].flags !! rs[j].flags
  }

  /** No detail is asked for twice at once, and the in-flight bits say exactly what is asked for. */
  ghost predicate Sound(s: State) {
    && Disjoint(s.outstanding)
    && Union(s.outstanding) == s.inflight
    && (s.reasons != {} ==> STORAGE in s.queued && STORAGE !in s.inflight)
  }

  lemma {:induction false} UnionHas(rs: seq<Request>, f: Flag)
    ensures f in Union(rs) <==> exists i :: 0 <= i < |rs| && f in rs[i].flags
    decreases |rs|
  {
    if rs != [] {
      UnionHas(rs[1..], f);
      if i :| 0 <= i < |rs[1..]| && f in rs[1..][i].flags {
        assert f in rs[i + 1].flags;
      }
      if i :| 0 < i < |rs| && f in rs[i].flags {
        assert f in rs[1..][i - 1].flags;
      }
    }
  }

  lemma {:induction false} UnionAppend(rs: seq<Request>, r: Request)
    ensures Union(rs + [r]) == Union(rs) + r.flags
    decreases |rs|
  {
    if rs == [] {
      assert (rs + [r])[1..] == [];
    } else {
      assert (rs + [r])[1..] == rs[1..] + [r];
      UnionAppend(rs[1..], r);
    }
  }

  lemma DemandIsSound(s: State, flags: set<Flag>, source: int, allowed: bool)
    requires Sound(s)
    ensures Sound(Demand(s, flags, source, allowed))
  {
    var toFetch := flags - s.inflight;
    if toFetch != {} && allowed {
      var t := Demand(s, flags, source, allowed);
      var r := t.outstanding[|s.outstanding|];
      UnionAppend(s.outstanding, r);
      forall i | 0 <= i < |s.outstanding| ensures s.outstanding[i].flags !! r.flags {
        forall f | f in s.outstanding[i].flags ensures f in s.inflight {
          UnionHas(s.outstanding, f);
        }
      }
    }
  }

  lemma PeriodicIsSound(s: State, allowed: bool)
    requires Sound(s)
    ensures Sound(Periodic(s, allowed))
  {
    if s.queued != {} {
      var bare := s.(queued := {}, reasons := {});
      DemandIsSound(bare, s.queued, -1, allowed);
      var t, u := Periodic(s, allowed), Demand(bare, s.queued, -1, allowed);
      assert t.inflight == u.inflight && t.queued == u.queued;
      if s.queued - s.inflight != {} && allowed {
        assert t.outstanding[..|s.outstanding|] == s.outstanding == u.outstanding[..|s.outstanding|];
        UnionAppend(s.outstanding, t.outstanding[|s.outstanding|]);
        UnionAppend(s.outstanding, u.outstanding[|s.outstanding|]);
      }
    }
  }

  lemma RestKeepsFlag(rs: seq<Request>, k: nat, f: Flag)
    requires k < |rs| && f in Union(rs) && f !in rs[k].flags
    ensures f in Union(Without(rs, k))
  {
    UnionHas(rs, f);
    var i :| 0 <= i < |rs| && f in rs[i].flags;
    var left := Without(rs, k);
    assert left[if i < k then i else i - 1] == rs[i];
    UnionHas(left, f);
  }

  lemma RestHasNoOther(rs: seq<Request>, k: nat, f: Flag)
    requires k < |rs| && Disjoint(rs) && f in Union(Without(rs, k))
    ensures f in Union(rs) && f !in rs[k].flags
  {
    var left := Without(rs, k);
    UnionHas(left, f);
    var i :| 0 <= i < |left| && f in left[i].flags;
    var j := if i < k then i else i + 1;
    assert left[i] == rs[j];
    assert rs[j].flags !! rs[k].flags;
    UnionHas(rs, f);
  }

  lemma WithoutIsDisjoint(rs: seq<Request>, k: nat)
    requires k < |rs| && Disjoint(rs)
    ensures Disjoint(Without(rs, k))
  {
    var left := Without(rs, k);
    forall i, j | 0 <= i < j < |left| ensures left[i].flags !! left[j].flags {
      assert left[i] == rs[if i < k then i else i + 1] && left[j] == rs[if j < k then j else j + 1];
    }
  }

  lemma ReplyIsSound(s: State, k: nat)
    requires Sound(s) && k < |s.outstanding|
    ensures Sound(Reply(s, k))
  {
    WithoutIsDisjoint(s.outstanding, k);
    forall f ensures f in Union(Without(s.outstanding, k)) <==> f in s.inflight - s.outstanding[k].flags {
      if f in Union(Without(s.outstanding, k)) {
        RestHasNoOther(s.outstanding, k, f);
      } else if f in s.inflight - s.outstanding[k].flags {
        RestKeepsFlag(s.outstanding, k, f);
      }
    }
  }

  lemma OthersStayInFlight(s: State, k: nat)
    requires Sound(s) && k < |s.outstanding|
    ensures s.outstanding[k].flags <= s.inflight
    ensures forall j :: 0 <= j < |s.outstanding| && j != k ==>
              s.outstanding[j].flags <= s.inflight - s.outstanding[k].flags
  {
    forall f | f in s.outstanding[k].flags ensures f in s.inflight {
      UnionHas(s.outstanding, f);
    }
    forall j, f | 0 <= j < |s.outstanding| && j != k && f in s.outstanding[j].flags
      ensures f in s.inflight && f !in s.outstanding[k].flags
    {
      UnionHas(s.outstanding, f);
      assert s.outstanding[if j < k then j else k].flags !! s.outstanding[if j < k then k else j].flags;
    }
  }

  /** In every run without a reset, whatever the throttle decides. */
  lemma {:induction false} RequestsNeverOverlap(ops: seq<Op>)
    requires Run(NOTHING, ops).Some?
    ensures Sound(Run(NOTHING, ops).value)
    decreases |ops|
  {
    if ops != [] {
      var s := Run(NOTHING, ops[..|ops| - 1]).value;
      RequestsNeverOverlap(ops[..|ops| - 1]);
      match ops[|ops| - 1]
      case Demanded(flags, source, allowed) => DemandIsSound(s, flags, source, allowed);
      case Ticked(allowed) => PeriodicIsSound(s, allowed);
      case Replied(k) => ReplyIsSound(s, k);
    }
  }

  /** Asked for, or waiting to be. */
  function Awaited(s: State): set<Flag> {
    s.inflight + s.queued
  }

  lemma DemandIsAwaited(s: State, flags: set<Flag>, source: int, allowed: bool)
    ensures Awaited(Demand(s, flags, source, allowed)) == Awaited(s) + flags
  {
    var toFetch := flags - s.inflight;
    assert s.inflight + toFetch == s.inflight + flags;
    assert toFetch == {} ==> flags <= s.inflight;
  }

  /** One operation forgets only what a reply answers, and a demand is always remembered. */
  lemma StepForgetsOnlyAnswers(s: State, op: Op)
    requires Possible(s, op)
    ensures var answered := if op.Replied? then s.outstanding[op.k].flags else {};
            Awaited(s) - answered <= Awaited(Apply(s, op))
    ensures op.Demanded? ==> Awaited(Apply(s, op)) == Awaited(s) + op.flags
    ensures op.Ticked? ==> Awaited(Apply(s, op)) == Awaited(s)
  {
    match op
    case Demanded(flags, source, allowed) => DemandIsAwaited(s, flags, source, allowed);
    case Ticked(allowed) =>
      DemandIsAwaited(s.(queued := {}), s.queued, -1, allowed);
    case Replied(k) =>
  }

  /** A detail that was demanded stays in flight or queued through any run until a reply answers it. */
  lemma {:induction false} DemandStaysAwaited(s: State, f: Flag, ops: seq<Op>)
    requires f in Awaited(s) && Run(s, ops).Some?
    requires forall n :: 0 <= n < |ops| && ops[n].Replied? && Run(s, ops[..n]).Some?
                         && Possible(Run(s, ops[..n]).value, ops[n]) ==>
               f !in Run(s, ops[..n]).value.outstanding[ops[n].k].flags
    ensures f in Awaited(Run(s, ops).value)
    decreases |ops|
  {
    if ops != [] {
      var init := ops[..|ops| - 1];
      forall n | 0 <= n < |init| ensures ops[..n] == init[..n] && ops[n] == init[n] {}
      DemandStaysAwaited(s, f, init);
      StepForgetsOnlyAnswers(Run(s, init).value, ops[|ops| - 1]);
    }
  }

  /** A request asks for exactly what is demanded and not in flight, and takes along every storage reason given since
      storage was last asked for; a demand that is held back keeps its details and its reason waiting. */
  lemma ReasonsTravel(s: State, flags: set<Flag>, source: int, allowed: bool)
    requires !(flags <= s.inflight)
    ensures var t, given := Demand(s, flags, source, allowed), if source >= 0 then {source} else {};
            var asks := STORAGE in flags && STORAGE !in s.inflight;
            if allowed then
              && t.outstanding == s.outstanding + [Request(flags - s.inflight, if asks then s.reasons + given else {})]
              && t.inflight == s.inflight + flags && t.queued == s.queued
              && t.reasons == if asks then {} else s.reasons
            else
              && t.outstanding == s.outstanding && t.inflight == s.inflight
              && t.queued == s.queued + (flags - s.inflight)
              && t.reasons == if asks then s.reasons + given else s.reasons
  {
    var toFetch := flags - s.inflight;
    var f :| f in flags && f !in s.inflight;
    assert f in toFetch;
    assert s.inflight + toFetch == s.inflight + flags;
    assert s.reasons + {} == s.reasons;
  }

  /** What waits in the queue is asked for at the next tick that is let through, and waits on otherwise; of what is in
      flight by then nothing is asked for again. */
  lemma TickEmptiesQueue(s: State, allowed: bool)
    ensures var t := Periodic(s, allowed);
            if allowed then t.queued == {} && t.inflight == s.inflight + s.queued
            else t.queued == s.queued - s.inflight && t.inflight == s.inflight && t.reasons == s.reasons
  {
    if s.queued == {} {
      assert s.inflight + s.queued == s.inflight;
    } else if !(s.queued <= s.inflight) {
      ReasonsTravel(s.(queued := {}), s.queued, -1, allowed);
      assert s.reasons + {} == s.reasons;
    } else {
      assert s.queued - s.inflight == {};
      assert s.inflight + s.queued == s.inflight;
    }
  }

  /** A reply to a request sent before the last reset: its flags are cleared all the same. */
  function StaleReply(s: State, flags: set<Flag>): State {
    s.(inflight := s.inflight - flags)
  }

  /** It does no harm exactly when nothing it names has been requested again. */
  lemma StaleReplyHarmlessExactly(s: State, flags: set<Flag>)
    requires Sound(s)
    ensures Sound(StaleReply(s, flags)) <==> flags !! s.inflight
  {
    if flags !! s.inflight {
      assert s.inflight - flags == s.inflight;
    }
  }

  // ----- The throttle as written -----

  const MIN_UPDATE_STATS_INTERVAL := 300_000

  /** The times of the last requests. */
  datatype LastRequests = LastRequests(storage: int, transfer: int, pro: int)

  function LastRequest(flags: set<Flag>, last: LastRequests): int {
    var a := if STORAGE in flags then last.storage else 0;
    var b := if TRANSFER in flags && (a == 0 || a > last.transfer) then last.transfer else a;
    if PRO in flags && (b == 0 || b > last.pro) then last.pro else b
  }

  /** For details that have all been requested before, the time of the oldest of those requests. */
  lemma LastRequestIsOldest(flags: set<Flag>, last: LastRequests)
    requires last.storage > 0 && last.transfer > 0 && last.pro > 0 && flags != {}
    ensures (STORAGE in flags && LastRequest(flags, last) == last.storage)
            || (TRANSFER in flags && LastRequest(flags, last) == last.transfer)
            || (PRO in flags && LastRequest(flags, last) == last.pro)
    ensures STORAGE in flags ==> LastRequest(flags, last) <= last.storage
    ensures TRANSFER in flags ==> LastRequest(flags, last) <= last.transfer
    ensures PRO in flags ==> LastRequest(flags, last) <= last.pro
  {
    var f :| f in flags;
    match f
    case STORAGE =>
    case TRANSFER =>
    case PRO =>
  }

  /** A request for `sent` stamps the details it asks for. */
  function Restamp(last: LastRequests, sent: set<Flag>, now: int): LastRequests {
    LastRequests(
      if STORAGE in sent then now else last.storage,
      if TRANSFER in sent then now else last.transfer,
      if PRO in sent then now else last.pro)
  }

  /** With the throttle off nothing is ever queued: all that is awaited is in flight. */
  lemma {:induction false} UnthrottledNeverQueues(ops: seq<Op>)
    requires Run(NOTHING, ops).Some?
    requires forall n :: 0 <= n < |ops| ==> (ops[n].Demanded? ==> ops[n].allowed) && (ops[n].Ticked? ==> ops[n].allowed)
    ensures var s := Run(NOTHING, ops).value;
            s.queued == {} && s.reasons == {} && Awaited(s) == Union(s.outstanding)
    decreases |ops|
  {
    RequestsNeverOverlap(ops);
    if ops != [] {
      UnthrottledNeverQueues(ops[..|ops| - 1]);
    }
  }

  class AccountDetailsManager {
    var finished: bool
    var s: State
    var last: LastRequests
    /** The function-local `static`: set at its first evaluation and never again. */
    var frozen: Option<int>

    /** The first evaluation of the static sees only zeros, so it is frozen at zero, and zero switches the
        throttle off. */
    ghost predicate ThrottleOff()
      reads this
    {
      && frozen in {None, Some(0)}
      && (frozen == None ==> last == LastRequests(0, 0, 0))
    }

    constructor ()
      ensures ThrottleOff() && !finished && s == NOTHING
    {
      finished, s, last, frozen := false, NOTHING, LastRequests(0, 0, 0), None;
    }

    /** Forgets everything; replies to requests sent before are taken not to arrive any more. */
    method Reset()
      modifies this`s, this`last
      ensures s == NOTHING && last == LastRequests(0, 0, 0)
      ensures old(ThrottleOff()) ==> ThrottleOff()
    {
      s := NOTHING;
      last := LastRequests(0, 0, 0);
    }

    /** What the throttle compares with the clock. */
    function Since(toFetch: set<Flag>): int
      reads this
    {
      if frozen.Some? then frozen.value else LastRequest(toFetch, last)
    }

    /** As coded, once started from zeros the throttle lets every demand through, forced or not and
        however recent the last request. */
    method UpdateUserStats(flags: set<Flag>, force: bool, source: int, now: int)
      modifies this`s, this`last, this`frozen
      ensures var since := old(Since(flags - s.inflight));
              var allowed := force || since == 0 || now - since > 300_000;
              && s == (if finished then old(s) else Demand(old(s), flags, source, allowed))
              && last == (if !finished && allowed then Restamp(old(last), flags - old(s).inflight, now) else old(last))
              && frozen == (if finished || flags <= old(s).inflight then old(frozen) else Some(since))
      ensures old(ThrottleOff()) ==>
                ThrottleOff() && s == if finished then old(s) else Demand(old(s), flags, source, true)
    {
      if finished {
        return;
      }
      var toFetch := flags - s.inflight;
      if toFetch == {} {
        assert forall f :: f in flags && f !in s.inflight ==> f in toFetch;
        return;
      }
      if frozen.None? {
        frozen := Some(LastRequest(toFetch, last));
      }
      var allowed := force || frozen.value == 0 || now - frozen.value > MIN_UPDATE_STATS_INTERVAL;
      s := Demand(s, flags, source, allowed);
      if allowed {
        last := Restamp(last, toFetch, now);
      }
    }

    method PeriodicUpdate(now: int)
      modifies this`s, this`last, this`frozen
      ensures var since := old(Since(s.queued - s.inflight));
              var allowed := since == 0 || now - since > 300_000;
              && s == (if finished then old(s).(queued := {}) else Periodic(old(s), allowed))
              && last == (if !finished && allowed then Restamp(old(last), old(s).queued - old(s).inflight, now)
                  else old(last))
      ensures old(ThrottleOff()) ==>
                ThrottleOff() && s == if finished then old(s).(queued := {}) else Periodic(old(s), true)
    {
      if s.queued != {} {
        var flags := s.queued;
        s := s.(queued := {});
        UpdateUserStats(flags, false, -1, now);
      }
    }

    /** The in-flight bits of the details named are lowered one by one. */
    method LowerInflight(flags: set<Flag>)
      modifies this`s
      ensures s == old(s).(inflight := s.inflight)
      ensures forall f :: f in s.inflight <==> f in old(s).inflight && f !in flags
    {
      if STORAGE in flags {
        s := s.(inflight := s.inflight - {STORAGE});
      }
      if TRANSFER in flags {
        s := s.(inflight := s.inflight - {TRANSFER});
      }
      if PRO in flags {
        s := s.(inflight := s.inflight - {PRO});
      }
      forall f: Flag ensures f in s.inflight <==> f in old(s).inflight && f !in flags {
        match f
        case STORAGE =>
        case TRANSFER =>
        case PRO =>
      }
    }

    /** A reply to outstanding request `k`, echoing its flags: exactly its details stop being in flight, those of
        every other request stay, and nothing waiting in the queue is touched. */
    method HandleAccountDetailsReply(k: nat)
      requires k < |s.outstanding|
      modifies this`s
      ensures s == Reply(old(s), k) && s.queued == old(s).queued && s.reasons == old(s).reasons
      ensures Sound(old(s)) ==>
                && Sound(s)
                && old(s).inflight - s.inflight == old(s).outstanding[k].flags
                && forall j :: 0 <= j < |old(s).outstanding| && j != k ==> old(s).outstanding[j].flags <= s.inflight
    {
      ghost var before := s;
      LowerInflight(s.outstanding[k].flags);
      assert s.inflight == before.inflight - before.outstanding[k].flags;
      s := s.(outstanding := Without(s.outstanding, k));
      if Sound(before) {
        ReplyIsSound(before, k);
        OthersStayInFlight(before, k);
      }
    }
  }
}
