/** `TransferQuota`: the transfer-quota state and the alerts it triggers. Times are milliseconds. */
module TransferQuota {

  datatype QuotaState = OK | WARNING | FULL | OVERQUOTA

  const ALMOST_OVER_QUOTA_PER_CENT := 90
  const FULL_QUOTA_PER_CENT := 100
  const HOUR := 3_600_000
  const DIALOG_PAUSE := 7 * 24 * HOUR
  const NOTIFICATION_PAUSE := 36 * HOUR
  const UI_ALERT_PAUSE := 36 * HOUR

  /** Signals emitted and alerts shown, in order. */
  datatype Event =
    | SendState(state: QuotaState)
    | WaitTimeIsOver
    | UpsellClosed
    | DialogShown(at: int)
    | NotificationShown(at: int)
    | MessageRequested(at: int)
    | MessageDismissed(at: int)
    | WarningNotificationShown(at: int)
    | WarningMessageRequested(at: int)
    | WarningMessageDismissed(at: int)

  /** What the update reads from the preferences. */
  datatype Account = Account(logged: bool, total: int, used: int)

  /** C's integer part of `used * 100 / total`. */
  function UsagePercent(a: Account): int
    requires a.total > 0
  {
    if a.used >= 0 then a.used * 100 / a.total else -(-a.used * 100 / a.total)
  }

  /** The state the bandwidth figures alone ask for. */
  function Level(a: Account): QuotaState
    requires a.total > 0
  {
    if UsagePercent(a) >= FULL_QUOTA_PER_CENT then FULL
    else if UsagePercent(a) >= ALMOST_OVER_QUOTA_PER_CENT then WARNING
    else OK
  }

  predicate Expired(state: QuotaState, waitUntil: int, now: int) {
    state == OVERQUOTA && now >= waitUntil
  }

  /** The state an update at time `now` leads to. */
  function Updated(state: QuotaState, waitUntil: int, a: Account, now: int): QuotaState {
    if !a.logged then state
    else
      var base := if Expired(state, waitUntil, now) then OK else state;
      if a.total <= 0 then base
      else if Level(a) == FULL && base == OVERQUOTA then OVERQUOTA
      else Level(a)
  }

  function WaitAfter(state: QuotaState, waitUntil: int, a: Account, now: int): int {
    if a.logged && Expired(state, waitUntil, now) then 0 else waitUntil
  }

  /** Updating again at the same instant changes nothing and signals nothing. */
  lemma UpdateIsIdempotent(state: QuotaState, waitUntil: int, a: Account, now: int)
    ensures var s, w := Updated(state, waitUntil, a, now), WaitAfter(state, waitUntil, a, now);
            && Updated(s, w, a, now) == s
            && WaitAfter(s, w, a, now) == w
            && (a.logged ==> !Expired(s, w, now))
  {}

  /** An update never enters OVERQUOTA, and leaves it exactly when the wait is over or usage is below the limit. */
  lemma OverQuotaOnlyEndsInUpdates(state: QuotaState, waitUntil: int, a: Account, now: int)
    ensures Updated(state, waitUntil, a, now) == OVERQUOTA <==>
            state == OVERQUOTA && (!a.logged || (now < waitUntil && (a.total > 0 ==>
                UsagePercent(a) >= FULL_QUOTA_PER_CENT)))
  {}

  /** Outside OVERQUOTA the state is the level, whatever it was before. */
  lemma SettlesAtLevel(state: QuotaState, waitUntil: int, a: Account, now: int)
    requires a.logged && a.total > 0
    ensures Updated(state, waitUntil, a, now) in {OVERQUOTA, Level(a)}
    ensures Updated(state, waitUntil, a, now) == OVERQUOTA ==> Level(a) == FULL
  {}

  lemma PercentAtLeast(used: int, total: int, percent: int)
    requires used >= 0 && total > 0
    ensures used * 100 / total >= percent <==> used * 100 >= percent * total
  {
    var q, r := used * 100 / total, used * 100 % total;
    assert used * 100 == q * total + r && 0 <= r < total;
    if q >= percent {
      assert q * total >= percent * total;
    } else {
      assert (q + 1) * total <= percent * total;
      assert (q + 1) * total == q * total + total;
    }
  }

  lemma PercentExactly(a: Account, percent: int)
    requires a.total > 0 && percent > 0
    ensures UsagePercent(a) >= percent <==> a.used * 100 >= percent * a.total
  {
    assert percent * a.total > 0;
    if a.used >= 0 {
      PercentAtLeast(a.used, a.total, percent);
    } else {
      assert -a.used * 100 / a.total >= 0;
    }
  }

  /** The state and the wait after an update, told from the figures: below nine tenths of the quota all is well, from
      there on a warning is due, and from the whole quota on it is full, or over until the wait ends. Without a
      quota only the end of the wait counts. */
  lemma StateAfterUpdate(state: QuotaState, waitUntil: int, a: Account, now: int)
    ensures var s, w := Updated(state, waitUntil, a, now), WaitAfter(state, waitUntil, a, now);
            if !a.logged then s == state && w == waitUntil
            else
              && w == (if state == OVERQUOTA && now >= waitUntil then 0 else waitUntil)
              && if a.total <= 0 then s == if state == OVERQUOTA && now >= waitUntil then OK else state
                 else
                   && (s == OK <==> 10 * a.used < 9 * a.total)
                   && (s == WARNING <==> 9 * a.total <= 10 * a.used < 10 * a.total)
                   && (s == OVERQUOTA <==> a.used >= a.total && state == OVERQUOTA && now < waitUntil)
                   && (s == FULL <==> a.used >= a.total && !(state == OVERQUOTA && now < waitUntil))
  {
    if a.total > 0 {
      PercentExactly(a, FULL_QUOTA_PER_CENT);
      PercentExactly(a, ALMOST_OVER_QUOTA_PER_CENT);
    }
  }

  // ----- What a history may look like -----

  /** An over-quota episode has begun and its end has not been signalled. */
  predicate Armed(trace: seq<Event>) {
    trace != [] &&
    (var last := trace[|trace| - 1];
     last == SendState(OVERQUOTA) || (last != WaitTimeIsOver && Armed(trace[..|trace| - 1])))
  }

  /** The state announced last; OK before any announcement. */
  function Announced(trace: seq<Event>): QuotaState {
    if trace == [] then OK
    else match trace[|trace| - 1]
      case SendState(s) => s
      case _ => Announced(trace[..|trace| - 1])
  }

  predicate OverQuotaAlert(e: Event) {
    e.DialogShown? || e.NotificationShown? || e.MessageRequested?
  }

  predicate WarningAlert(e: Event) {
    e.WarningNotificationShown? || e.WarningMessageRequested?
  }

  /** Dialogs and notifications keep their distance, and a message dismissed is not asked for again too soon. */
  predicate Paused(earlier: Event, later: Event) {
    match (earlier, later)
    case (DialogShown(a), DialogShown(b)) => a + DIALOG_PAUSE <= b
    case (NotificationShown(a), NotificationShown(b)) => a + NOTIFICATION_PAUSE <= b
    case (MessageDismissed(a), MessageRequested(b)) => a + UI_ALERT_PAUSE <= b
    case (WarningNotificationShown(a), WarningNotificationShown(b)) => a + NOTIFICATION_PAUSE <= b
    case (WarningMessageDismissed(a), WarningMessageRequested(b)) => a + UI_ALERT_PAUSE <= b
    case _ => true
  }

  /** Event `i` has its place: the end of a wait is signalled once per announced OVERQUOTA, and only after it;
      every alert is shown in the announced state it is about, and not too soon after an earlier one. */
  ghost predicate EventFits(trace: seq<Event>, i: nat)
    requires i < |trace|
  {
    && (trace[i] == WaitTimeIsOver ==> Armed(trace[..i]))
    && (OverQuotaAlert(trace[i]) ==> Announced(trace[..i]) == OVERQUOTA)
    && (WarningAlert(trace[i]) ==> Announced(trace[..i]) == WARNING)
    && forall j :: 0 <= j < i ==> Paused(trace[j], trace[i])
  }

  /** The last-execution stamps the gates read. */
  datatype Stamps = Stamps(dialog: int, notification: int, message: int, warningNotification: int, warningMessage: int)

  /** Alert `i` is no later than its stamp. */
  predicate NotAfterStamp(trace: seq<Event>, i: nat, st: Stamps)
    requires i < |trace|
  {
    match trace[i]
    case DialogShown(at) => at <= st.dialog
    case NotificationShown(at) => at <= st.notification
    case MessageDismissed(at) => at <= st.message
    case WarningNotificationShown(at) => at <= st.warningNotification
    case WarningMessageDismissed(at) => at <= st.warningMessage
    case _ => true
  }

  ghost predicate GoodHistory(trace: seq<Event>, st: Stamps) {
    && (forall i :: 0 <= i < |trace| ==> EventFits(trace, i))
    && (forall i :: 0 <= i < |trace| ==> NotAfterStamp(trace, i, st))
  }

  /** Appending an event that the gates and the state allow. */
  ghost predicate Allowed(trace: seq<Event>, st: Stamps, e: Event) {
    && (OverQuotaAlert(e) ==> Announced(trace) == OVERQUOTA)
    && (WarningAlert(e) ==> Announced(trace) == WARNING)
    && match e
       case WaitTimeIsOver => Armed(trace)
       case DialogShown(at) => st.dialog + DIALOG_PAUSE <= at
       case NotificationShown(at) => st.notification + NOTIFICATION_PAUSE <= at
       case MessageRequested(at) => st.message + UI_ALERT_PAUSE <= at
       case WarningNotificationShown(at) => st.warningNotification + NOTIFICATION_PAUSE <= at
       case WarningMessageRequested(at) => st.warningMessage + UI_ALERT_PAUSE <= at
       case _ => true
  }

  /** The stamps after recording `e`. */
  ghost predicate Restamped(st: Stamps, st': Stamps, e: Event) {
    && st'.dialog >= st.dialog && st'.notification >= st.notification && st'.message >= st.message
    && st'.warningNotification >= st.warningNotification && st'.warningMessage >= st.warningMessage
    && match e
       case DialogShown(at) => at <= st'.dialog
       case NotificationShown(at) => at <= st'.notification
       case MessageDismissed(at) => at <= st'.message
       case WarningNotificationShown(at) => at <= st'.warningNotification
       case WarningMessageDismissed(at) => at <= st'.warningMessage
       case _ => true
  }

  lemma FitsInLonger(trace: seq<Event>, more: seq<Event>, i: nat)
    requires i < |trace|
    ensures EventFits(trace, i) <==> EventFits(trace + more, i)
  {
    assert (trace + more)[..i] == trace[..i];
    assert forall j :: 0 <= j <= i ==> (trace + more)[j] == trace[j];
  }

  lemma AppendKeepsHistory(trace: seq<Event>, st: Stamps, e: Event, st': Stamps)
    requires GoodHistory(trace, st) && Allowed(trace, st, e) && Restamped(st, st', e)
    ensures GoodHistory(trace + [e], st')
  {
    var t := trace + [e];
    forall i | 0 <= i < |t| ensures EventFits(t, i) && NotAfterStamp(t, i, st') {
      if i < |trace| {
        FitsInLonger(trace, [e], i);
        assert NotAfterStamp(trace, i, st);
      } else {
        assert t[..i] == trace;
        forall j | 0 <= j < i ensures Paused(t[j], e) {
          assert NotAfterStamp(trace, j, st);
        }
      }
    }
  }

  function Count(trace: seq<Event>, e: Event): nat {
    if trace == [] then 0 else Count(trace[..|trace| - 1], e) + if trace[|trace| - 1] == e then 1 else 0
  }

  /** So the end of a wait is never signalled more often than OVERQUOTA was announced. */
  lemma {:induction false} WaitsDoNotOutnumberEpisodes(trace: seq<Event>)
    requires forall i :: 0 <= i < |trace| ==> EventFits(trace, i)
    ensures Count(trace, WaitTimeIsOver) + (if Armed(trace) then 1 else 0) <= Count(trace, SendState(OVERQUOTA))
    decreases |trace|
  {
    if trace != [] {
      var n := |trace| - 1;
      assert trace == trace[..n] + [trace[n]];
      forall i | 0 <= i < n ensures EventFits(trace[..n], i) {
        FitsInLonger(trace[..n], [trace[n]], i);
      }
      assert EventFits(trace, n);
      WaitsDoNotOutnumberEpisodes(trace[..n]);
    }
  }

  // ----- What the gates let through -----

  /** The times the gates of one round of over-quota alerts read. */
  datatype Readings = Readings(dialogTest: int, dialog: int, notificationTest: int, notification: int, message: int)

  predicate InOrder(from: int, r: Readings, to: int) {
    from <= r.dialogTest <= r.dialog <= r.notificationTest <= r.notification <= r.message <= to
  }

  function Shown(open: bool, e: Event): seq<Event> {
    if open then [e] else []
  }

  predicate DialogDue(st: Stamps, at: int) {
    at >= st.dialog + DIALOG_PAUSE
  }

  predicate NotificationDue(st: Stamps, at: int) {
    at >= st.notification + NOTIFICATION_PAUSE
  }

  predicate MessageDue(st: Stamps, at: int) {
    at >= st.message + UI_ALERT_PAUSE
  }

  predicate WarningNotificationDue(st: Stamps, at: int) {
    at >= st.warningNotification + NOTIFICATION_PAUSE
  }

  /** The gate of the warning message uses the pause of the over-quota one. */
  predicate WarningMessageDue(st: Stamps, at: int) {
    at >= st.warningMessage + UI_ALERT_PAUSE
  }

  /** The gates in milliseconds: seven days for the dialog, 36 hours for everything else. */
  lemma GatesOpenExactly(st: Stamps, at: int)
    ensures DialogDue(st, at) <==> at - st.dialog >= 604_800_000
    ensures NotificationDue(st, at) <==> at - st.notification >= 129_600_000
    ensures MessageDue(st, at) <==> at - st.message >= 129_600_000
    ensures WarningNotificationDue(st, at) <==> at - st.warningNotification >= 129_600_000
    ensures WarningMessageDue(st, at) <==> at - st.warningMessage >= 129_600_000
  {}

  /** Each gate lets its own alert through, in order, and only the dialog and the notifications are stamped. */
  lemma RoundExactly(st: Stamps, r: Readings)
    ensures forall e :: e in OverQuotaAlerts(st, r) <==>
              || (DialogDue(st, r.dialogTest) && e == DialogShown(r.dialog))
              || (NotificationDue(st, r.notificationTest) && e == NotificationShown(r.notification))
              || (MessageDue(st, r.message) && e == MessageRequested(r.message))
    ensures forall e :: e in WarningAlerts(st, r) <==>
              || (WarningNotificationDue(st, r.notificationTest) && e == WarningNotificationShown(r.notification))
              || (WarningMessageDue(st, r.message) && e == WarningMessageRequested(r.message))
    ensures var after := OverQuotaStamps(st, r);
            && after == st.(dialog := after.dialog, notification := after.notification)
            && after.dialog == (if DialogDue(st, r.dialogTest) then r.dialog else st.dialog)
            && after.notification ==
               (if NotificationDue(st, r.notificationTest) then r.notification else st.notification)
    ensures WarningStamps(st, r) == st.(warningNotification :=
              if WarningNotificationDue(st, r.notificationTest) then r.notification else st.warningNotification)
  {}

  /** The alerts of one round over quota, and the stamps after it. */
  function OverQuotaAlerts(st: Stamps, r: Readings): (shown: seq<Event>)
    ensures forall i :: 0 <= i < |shown| ==> OverQuotaAlert(shown[i])
  {
    Shown(DialogDue(st, r.dialogTest), DialogShown(r.dialog)) +
    Shown(NotificationDue(st, r.notificationTest), NotificationShown(r.notification)) +
    Shown(MessageDue(st, r.message), MessageRequested(r.message))
  }

  function OverQuotaStamps(st: Stamps, r: Readings): Stamps {
    st.(dialog := if DialogDue(st, r.dialogTest) then r.dialog else st.dialog,
        notification := if NotificationDue(st, r.notificationTest) then r.notification else st.notification)
  }

  /** The same for a round of warnings, which has no dialog. */
  function WarningAlerts(st: Stamps, r: Readings): (shown: seq<Event>)
    ensures forall i :: 0 <= i < |shown| ==> WarningAlert(shown[i])
  {
    Shown(WarningNotificationDue(st, r.notificationTest), WarningNotificationShown(r.notification)) +
    Shown(WarningMessageDue(st, r.message), WarningMessageRequested(r.message))
  }

  function WarningStamps(st: Stamps, r: Readings): Stamps {
    st.(warningNotification := if WarningNotificationDue(st, r.notificationTest) then r.notification
        else st.warningNotification)
  }

  // ----- The object -----

  function EndOfWait(a: Account, state: QuotaState, waitUntil: int, at: int): seq<Event> {
    if a.logged && Expired(state, waitUntil, at) then [WaitTimeIsOver] else []
  }

  /** What a change of state says; back to OK also closes the offer of more quota. */
  function Change(before: QuotaState, after: QuotaState): seq<Event> {
    if after == before then []
    else if after == OK then [SendState(OK), UpsellClosed]
    else [SendState(after)]
  }

  lemma InTurn(t: seq<Event>, wait: seq<Event>, change: seq<Event>, warned: seq<Event>)
    ensures t + wait + change + warned == t + (wait + change) + warned
    ensures t + (wait + []) + [] == t + wait
  {}

  lemma NothingNew(t: seq<Event>, x: seq<Event>)
    ensures t + ([] + []) + [] + x == t + x
  {}

  class TransferQuota {
    var account: Account
    var alertsAllowed: bool        // not finished, and the user is there to see them
    var state: QuotaState
    var waitUntil: int
    var stamps: Stamps
    var now: int
    var trace: seq<Event>

    ghost predicate Valid()
      reads this
    {
      && GoodHistory(trace, stamps)
      && (state == OVERQUOTA ==> Armed(trace))
      && (state != OK ==> Announced(trace) == state)
      && stamps.message <= now && stamps.warningMessage <= now
    }

    /** How many state changes an update can still cause. */
    function Unsettled(): nat
      reads this
    {
      if state == OVERQUOTA then 2
      else if account.logged && account.total > 0 && state != Level(account) then 1
      else 0
    }

    constructor (account: Account, alertsAllowed: bool, stamps: Stamps, now: int)
      requires stamps.message <= now && stamps.warningMessage <= now
      ensures Valid() && this.account == account && this.alertsAllowed == alertsAllowed
      ensures state == Updated(OK, 0, account, this.now)
    {
      this.account, this.alertsAllowed, this.stamps, this.now := account, alertsAllowed, stamps, now;
      state, waitUntil, trace := OK, 0, [];
      new;
      ghost var t, r := UpdateQuotaState();
    }

    /** The clock: any time not before the last one read. */
    method Now() returns (t: int)
      modifies this`now
      ensures t == now >= old(now)
    {
      var elapsed: nat :| elapsed >= 0;
      now := now + elapsed;
      t := now;
    }

    method Emit(e: Event)
      requires GoodHistory(trace, stamps) && Allowed(trace, stamps, e) && Restamped(stamps, stamps, e)
      modifies this`trace
      ensures trace == old(trace) + [e] && GoodHistory(trace, stamps)
      ensures Announced(trace) == if e.SendState? then e.state else old(Announced(trace))
    {
      AppendKeepsHistory(trace, stamps, e, stamps);
      assert (trace + [e])[..|trace|] == trace;
      trace := trace + [e];
    }

    /** What every operation but `SetOverQuota` promises: the surroundings are left alone, time and history
        only move on, and OVERQUOTA is never announced. */
    twostate predicate Proceeds()
      reads this
    {
      && account == old(account) && alertsAllowed == old(alertsAllowed) && now >= old(now)
      && old(trace) <= trace
      && forall i :: |old(trace)| <= i < |trace| ==> trace[i] != SendState(OVERQUOTA)
    }

    method UpdateQuotaState() returns (ghost at: int, ghost r: Readings)
      requires Valid()
      modifies this
      ensures Valid() && Proceeds() && Unsettled() <= old(Unsettled())
      ensures old(now) <= at <= now
      ensures state == Updated(old(state), old(waitUntil), account, at)
      ensures waitUntil == WaitAfter(old(state), old(waitUntil), account, at)
      ensures InOrder(old(now), r, now)
      ensures trace == old(trace) + Announcements(old(state), old(waitUntil), at) + Warned(old(state), old(stamps), r)
      ensures stamps == WarnedStamps(old(state), old(stamps), r)
      decreases Unsettled(), 1
    {
      at := now;
      r := Readings(now, now, now, now, now);
      if account.logged {
        var newState;
        newState, at := CheckWait();
        newState := FromFigures(newState);
        r := Settle(newState);
        InTurn(old(trace), EndOfWait(account, old(state), old(waitUntil), at), Change(old(state), state),
          Warned(old(state), old(stamps), r));
      }
    }

    /** The part of an update that looks at the figures, when there are any to look at. */
    method FromFigures(current: QuotaState) returns (newState: QuotaState)
      ensures newState ==
              if account.total <= 0 || (Level(account) == FULL && current == OVERQUOTA) then current else Level(account)
    {
      newState := current;
      if account.total > 0 {
        if UsagePercent(account) >= FULL_QUOTA_PER_CENT {
          if newState != OVERQUOTA {
            newState := FULL;
          }
        } else if UsagePercent(account) >= ALMOST_OVER_QUOTA_PER_CENT {
          newState := WARNING;
        } else {
          newState := OK;
        }
      }
    }

    /** The warnings of an update that moved into WARNING, and the stamps after them. */
    function Warned(before: QuotaState, st: Stamps, r: Readings): seq<Event>
      reads this
    {
      if state == WARNING != before && alertsAllowed then WarningAlerts(st, r) else []
    }

    function WarnedStamps(before: QuotaState, st: Stamps, r: Readings): Stamps
      reads this
    {
      if state == WARNING != before && alertsAllowed then WarningStamps(st, r) else st
    }

    /** What an update from these values says before it shows any alert. */
    function Announcements(before: QuotaState, wait: int, at: int): seq<Event>
      reads this
    {
      EndOfWait(account, before, wait, at) + Change(before, state)
    }

    /** All an update did to history and stamps: what it announced, and then any warnings. */
    twostate predicate UpdateShown(at: int, warned: Readings)
      reads this
    {
      && trace == old(trace) + Announcements(old(state), old(waitUntil), at) + Warned(old(state), old(stamps), warned)
      && stamps == WarnedStamps(old(state), old(stamps), warned)
    }

    /** One round of the alerts of the state, and the stamps after it. */
    function Round(st: Stamps, r: Readings): seq<Event>
      reads this
    {
      if state == OVERQUOTA then OverQuotaAlerts(st, r) else if state == WARNING then WarningAlerts(st, r) else []
    }

    function RoundStamps(st: Stamps, r: Readings): Stamps
      reads this
    {
      if state == OVERQUOTA then OverQuotaStamps(st, r) else if state == WARNING then WarningStamps(st, r) else st
    }

    /** All that showing alerts did: an update, with any warnings of its own, and then one round. */
    twostate predicate AlertsShown(at: int, warned: Readings, r: Readings)
      reads this
    {
      var st := WarnedStamps(old(state), old(stamps), warned);
      && trace == old(trace) + Announcements(old(state), old(waitUntil), at)
                  + Warned(old(state), old(stamps), warned) + Round(st, r)
      && stamps == RoundStamps(st, r)
    }

    /** Ends the wait set by the servers, if it is over, and signals that. */
    method CheckWait() returns (newState: QuotaState, ghost at: int)
      requires Valid()
      modifies this`now, this`waitUntil, this`trace
      ensures GoodHistory(trace, stamps) && Proceeds() && old(now) <= at <= now
      ensures trace == old(trace) ==> Valid()
      ensures newState == if Expired(state, old(waitUntil), at) then OK else state
      ensures waitUntil == if Expired(state, old(waitUntil), at) then 0 else old(waitUntil)
      ensures if Expired(state, old(waitUntil), at) then trace == old(trace) + [WaitTimeIsOver] else trace == old(trace)
    {
      newState := state;
      at := now;
      if state == OVERQUOTA {
        var t := Now();
        at := t;
        if t >= waitUntil {
          newState := OK;
          waitUntil := 0;
          Emit(WaitTimeIsOver);
        }
      }
    }

    /** The end of an update: a new state is taken over, the same one is left alone. */
    method Settle(newState: QuotaState) returns (ghost r: Readings)
      requires newState == state ==> Valid()
      requires newState != state ==>
                 && newState != OVERQUOTA && GoodHistory(trace, stamps)
                 && stamps.message <= now && stamps.warningMessage <= now
                 && account.logged && (if account.total > 0 then newState == Level(account) else newState == OK)
      modifies this
      ensures Valid() && Proceeds() && state == newState && waitUntil == old(waitUntil)
      ensures InOrder(old(now), r, now)
      ensures trace == old(trace) + Change(old(state), state) + Warned(old(state), old(stamps), r)
      ensures stamps == WarnedStamps(old(state), old(stamps), r)
      decreases 0, if newState == state then 0 else 7
    {
      r := Readings(now, now, now, now, now);
      if newState != state {
        r := Adopt(newState);
      }
    }

    /** Takes over a state an update arrived at, signals it and acts on it. */
    method Adopt(newState: QuotaState) returns (ghost r: Readings)
      requires GoodHistory(trace, stamps) && stamps.message <= now && stamps.warningMessage <= now
      requires newState != OVERQUOTA && newState != state
      requires account.logged && (if account.total > 0 then newState == Level(account) else newState == OK)
      modifies this
      ensures Valid() && Proceeds() && state == newState && waitUntil == old(waitUntil)
      ensures InOrder(old(now), r, now)
      ensures trace == old(trace) + Change(old(state), state) + Warned(old(state), old(stamps), r)
      ensures stamps == WarnedStamps(old(state), old(stamps), r)
      decreases 0, 6
    {
      r := Readings(now, now, now, now, now);
      state := newState;
      Emit(SendState(state));
      if newState == OK {
        Emit(UpsellClosed);
      } else {
        ghost var at, warned;
        at, warned, r := CheckExecuteAlerts();
      }
    }

    method IsOverQuota() returns (r: bool, ghost at: int, ghost warned: Readings)
      requires Valid()
      modifies this
      ensures Valid() && Proceeds() && Unsettled() <= old(Unsettled())
      ensures old(now) <= at <= now && InOrder(old(now), warned, now)
      ensures state == Updated(old(state), old(waitUntil), account, at)
      ensures waitUntil == WaitAfter(old(state), old(waitUntil), account, at)
      ensures UpdateShown(at, warned)
      ensures state == old(state) ==> trace == old(trace) && stamps == old(stamps)
      ensures r <==> state == OVERQUOTA
      decreases Unsettled(), 2
    {
      at, warned := UpdateQuotaState();
      r := state == OVERQUOTA;
    }

    method IsQuotaWarning() returns (r: bool, ghost at: int, ghost warned: Readings)
      requires Valid()
      modifies this
      ensures Valid() && Proceeds() && Unsettled() <= old(Unsettled())
      ensures old(now) <= at <= now && InOrder(old(now), warned, now)
      ensures state == Updated(old(state), old(waitUntil), account, at)
      ensures waitUntil == WaitAfter(old(state), old(waitUntil), account, at)
      ensures UpdateShown(at, warned)
      ensures state == old(state) ==> trace == old(trace) && stamps == old(stamps)
      ensures r <==> state == WARNING
      decreases Unsettled(), 2
    {
      at, warned := UpdateQuotaState();
      r := state == WARNING;
    }

    /** Shows the alerts of the state found, when the application allows alerts at all. */
    method CheckExecuteAlerts() returns (ghost at: int, ghost warned: Readings, ghost r: Readings)
      requires Valid()
      modifies this
      ensures Valid() && Proceeds() && Unsettled() <= old(Unsettled())
      ensures old(now) <= at <= now && InOrder(old(now), warned, now) && InOrder(old(now), r, now)
      ensures if account.logged && alertsAllowed then
                && state == Updated(old(state), old(waitUntil), account, at)
                && waitUntil == WaitAfter(old(state), old(waitUntil), account, at)
                && AlertsShown(at, warned, r)
              else
                state == old(state) && waitUntil == old(waitUntil) && trace == old(trace) && stamps == old(stamps)
      decreases Unsettled(), 5
    {
      at := now;
      warned := Readings(now, now, now, now, now);
      r := warned;
      if account.logged && alertsAllowed {
        at, warned, r := ShowAlerts();
      }
    }

    method ShowAlerts() returns (ghost at: int, ghost warned: Readings, ghost r: Readings)
      requires Valid() && account.logged && alertsAllowed
      modifies this
      ensures Valid() && Proceeds() && Unsettled() <= old(Unsettled())
      ensures old(now) <= at <= now && InOrder(old(now), warned, now) && InOrder(old(now), r, now)
      ensures state == Updated(old(state), old(waitUntil), account, at)
      ensures waitUntil == WaitAfter(old(state), old(waitUntil), account, at)
      ensures AlertsShown(at, warned, r)
      decreases Unsettled(), 4
    {
      var over;
      over, at, warned := IsOverQuota();
      if over {
        r := ShowOverQuota();
      } else {
        r := ShowIfWarning();
      }
    }

    /** Right after an update that did not end in OVERQUOTA, asking again changes nothing. */
    method ShowIfWarning() returns (ghost r: Readings)
      requires Valid() && account.logged && state != OVERQUOTA && state == Updated(state, waitUntil, account, now)
      modifies this
      ensures Valid() && Proceeds() && Unsettled() <= old(Unsettled())
      ensures state == old(state) && waitUntil == old(waitUntil) && InOrder(old(now), r, now)
      ensures trace == old(trace) + Round(old(stamps), r) && stamps == RoundStamps(old(stamps), r)
      decreases Unsettled(), 3
    {
      r := Readings(now, now, now, now, now);
      var warning;
      ghost var again, nothing;
      warning, again, nothing := IsQuotaWarning();
      if warning {
        r := ShowWarning();
      }
    }

    /** One gate: the event is recorded and the stamps replaced when it is open, and nothing happens otherwise. */
    twostate predicate Gated(open: bool, e: Event, st: Stamps)
      reads this
    {
      && trace == old(trace) + Shown(open, e)
      && stamps == if open then st else old(stamps)
    }

    twostate predicate OverQuotaShown(r: Readings)
      reads this
    {
      && InOrder(old(now), r, now)
      && trace == old(trace) + OverQuotaAlerts(old(stamps), r)
      && stamps == OverQuotaStamps(old(stamps), r)
    }

    twostate predicate WarningShown(r: Readings)
      reads this
    {
      && InOrder(old(now), r, now)
      && trace == old(trace) + WarningAlerts(old(stamps), r)
      && stamps == WarningStamps(old(stamps), r)
    }

    method ShowOverQuota() returns (ghost r: Readings)
      requires Valid() && state == OVERQUOTA
      modifies this`now, this`stamps, this`trace
      ensures Valid() && OverQuotaShown(r)
    {
      ghost var tested, shown := CheckExecuteDialog();
      ghost var notificationTested, notified := CheckExecuteNotification();
      ghost var message := CheckExecuteUiMessage();
      r := Readings(tested, shown, notificationTested, notified, message);
    }

    method ShowWarning() returns (ghost r: Readings)
      requires Valid() && state == WARNING
      modifies this`now, this`stamps, this`trace
      ensures Valid() && WarningShown(r)
    {
      ghost var before := now;
      ghost var tested, notified := CheckExecuteWarningNotification();
      ghost var message := CheckExecuteWarningUiMessage();
      r := Readings(before, before, tested, notified, message);
    }

    method CheckExecuteDialog() returns (ghost tested: int, ghost shown: int)
      requires Valid() && state == OVERQUOTA
      modifies this`now, this`stamps, this`trace
      ensures Valid() && old(now) <= tested <= shown <= now
      ensures Gated(DialogDue(old(stamps), tested), DialogShown(shown), old(stamps).(dialog := shown))
    {
      var t := Now();
      tested, shown := t, t;
      if t >= stamps.dialog + DIALOG_PAUSE {
        t := Now();
        shown := t;
        Record(DialogShown(t), stamps.(dialog := t));
      }
    }

    method CheckExecuteNotification() returns (ghost tested: int, ghost shown: int)
      requires Valid() && state == OVERQUOTA
      modifies this`now, this`stamps, this`trace
      ensures Valid() && old(now) <= tested <= shown <= now
      ensures Gated(NotificationDue(old(stamps), tested), NotificationShown(shown), old(stamps).(notification := shown))
    {
      var t := Now();
      tested, shown := t, t;
      if t >= stamps.notification + NOTIFICATION_PAUSE {
        t := Now();
        shown := t;
        Record(NotificationShown(t), stamps.(notification := t));
      }
    }

    method CheckExecuteUiMessage() returns (ghost tested: int)
      requires Valid() && state == OVERQUOTA
      modifies this`now, this`stamps, this`trace
      ensures Valid() && old(now) <= tested <= now
      ensures Gated(MessageDue(old(stamps), tested), MessageRequested(tested), old(stamps))
    {
      var t := Now();
      tested := t;
      if t >= stamps.message + UI_ALERT_PAUSE {
        Record(MessageRequested(t), stamps);
      }
    }

    method CheckExecuteWarningNotification() returns (ghost tested: int, ghost shown: int)
      requires Valid() && state == WARNING
      modifies this`now, this`stamps, this`trace
      ensures Valid() && old(now) <= tested <= shown <= now
      ensures Gated(WarningNotificationDue(old(stamps), tested), WarningNotificationShown(shown),
                    old(stamps).(warningNotification := shown))
    {
      var t := Now();
      tested, shown := t, t;
      if t >= stamps.warningNotification + NOTIFICATION_PAUSE {
        t := Now();
        shown := t;
        Record(WarningNotificationShown(t), stamps.(warningNotification := t));
      }
    }

    method CheckExecuteWarningUiMessage() returns (ghost tested: int)
      requires Valid() && state == WARNING
      modifies this`now, this`stamps, this`trace
      ensures Valid() && old(now) <= tested <= now
      ensures Gated(WarningMessageDue(old(stamps), tested), WarningMessageRequested(tested), old(stamps))
    {
      var t := Now();
      tested := t;
      if t >= stamps.warningMessage + UI_ALERT_PAUSE {
        Record(WarningMessageRequested(t), stamps);
      }
    }

    method Record(e: Event, st: Stamps)
      requires GoodHistory(trace, stamps) && Allowed(trace, stamps, e) && Restamped(stamps, st, e)
      modifies this`stamps, this`trace
      ensures trace == old(trace) + [e] && stamps == st && GoodHistory(trace, stamps)
      ensures Announced(trace) == if e.SendState? then e.state else old(Announced(trace))
      ensures old(Armed(trace)) && e != WaitTimeIsOver ==> Armed(trace)
    {
      AppendKeepsHistory(trace, stamps, e, st);
      assert (trace + [e])[..|trace|] == trace;
      trace := trace + [e];
      stamps := st;
    }

    /** The one way into OVERQUOTA; it may be left again by the update inside the alerts. */
    method SetOverQuota(waitTime: int)
      returns (ghost at: int, ghost checked: int, ghost warned: Readings, ghost r: Readings)
      requires Valid()
      modifies this
      ensures Valid() && account == old(account) && alertsAllowed == old(alertsAllowed)
      ensures old(now) <= at <= checked <= now
      ensures old(trace) + [SendState(OVERQUOTA)] <= trace
      ensures forall i :: |old(trace)| < i < |trace| ==> trace[i] != SendState(OVERQUOTA)
      ensures if account.logged && alertsAllowed then
                && state == Updated(OVERQUOTA, at + waitTime, account, checked)
                && waitUntil == WaitAfter(OVERQUOTA, at + waitTime, account, checked)
                && var st := WarnedStamps(OVERQUOTA, old(stamps), warned);
                   trace == old(trace) + [SendState(OVERQUOTA)] + Announcements(OVERQUOTA, at + waitTime, checked)
                            + Warned(OVERQUOTA, old(stamps), warned) + Round(st, r)
                   && stamps == RoundStamps(st, r)
              else
                state == OVERQUOTA && waitUntil == at + waitTime && trace == old(trace) + [SendState(OVERQUOTA)]
    {
      var t := Now();
      at := t;
      waitUntil := t + waitTime;
      state := OVERQUOTA;
      Emit(SendState(OVERQUOTA));
      checked, warned, r := CheckExecuteAlerts();
    }

    method CheckQuotaAndAlerts() returns (ghost at: int, ghost warned: Readings, ghost r: Readings)
      requires Valid()
      modifies this
      ensures Valid() && Proceeds() && Unsettled() <= old(Unsettled())
      ensures old(now) <= at <= now && InOrder(old(now), warned, now) && InOrder(old(now), r, now)
      ensures state == Updated(old(state), old(waitUntil), account, at)
      ensures waitUntil == WaitAfter(old(state), old(waitUntil), account, at)
      ensures if account.logged && alertsAllowed then AlertsShown(at, warned, r) else UpdateShown(at, warned)
    {
      var over;
      over, at, warned := IsOverQuota();
      ghost var said, st, again, later := trace, stamps, at, warned;
      again, later, r := CheckExecuteAlerts();
      if !over {
        NothingNew(said, Round(st, r));
      } else if alertsAllowed {
        at, warned := again, later;
      }
    }

    method Reset()
      requires Valid()
      modifies this`state, this`waitUntil
      ensures Valid() && state == OK && waitUntil == 0
    {
      state := OK;
      waitUntil := 0;
    }

    /** The user shows or dismisses the over-quota message. */
    method OnTransferOverquotaVisibilityChange(messageShown: bool)
      requires Valid()
      modifies this`now, this`stamps, this`trace
      ensures Valid() && Gated(!messageShown, MessageDismissed(now), old(stamps).(message := now))
    {
      if !messageShown {
        var t := Now();
        Record(MessageDismissed(t), stamps.(message := t));
      }
    }

    method OnAlmostTransferOverquotaVisibilityChange(messageShown: bool)
      requires Valid()
      modifies this`now, this`stamps, this`trace
      ensures Valid() && Gated(!messageShown, WarningMessageDismissed(now), old(stamps).(warningMessage := now))
    {
      if !messageShown {
        var t := Now();
        Record(WarningMessageDismissed(t), stamps.(warningMessage := t));
      }
    }

    /** New figures in the preferences, or a user who comes or goes. */
    method Observe(a: Account, allowed: bool)
      requires Valid()
      modifies this`account, this`alertsAllowed
      ensures Valid() && account == a && alertsAllowed == allowed
    {
      account, alertsAllowed := a, allowed;
    }
  }
}
