/**
 * The auto-lock: poller and watchdog of src-tauri/src/auto_lock.rs, `set_auto_lock` and the session commands of
 * src-tauri/src/commands/auth.rs. Times are seconds; every lock-held section is one step, in any interleaving.
 */
module AutoLock {
  import opened Optional

  datatype Trigger = Off | Idle | ScreenLock

  /** A 64-bit float, as far as the window is concerned. */
  datatype Minutes = NaN | Infinite(negative: bool) | Finite(value: real)

  /** Where the five-second loop and the thirty-second loop stand. */
  datatype Poller = Asleep | Probing | Judging | Locking(next: Section)

  /** What `lock_now` does next: take the SSH agent, wipe a pending second factor, drop the session. */
  datatype Section = Taking | Wiping | Dropping

  datatype State = State(
    trigger: Trigger, minutes: Minutes, since: Option<real>, lastActivity: real,
    session: bool, agent: bool, pending: bool, poller: Poller, watchdog: Option<Section>)

  datatype Action =
    | SetAutoLock(trigger: Trigger, minutes: Minutes)
    | MarkActivity
    | OpenSession                         // a login, an unlock or a standalone vault; it marks no activity itself
    | StopAgent | CloseSession | ForgetSecondFactor   // the user locks or logs out, one section after the other
    | Arm                                 // the poller wakes and looks whether the trigger is armed
    | Observe(locked: Option<bool>)       // the probe's answer, or none
    | StartAgent
    | ParkSecondFactor                    // a login that needs one
    | PollerJudges | WatchdogJudges
    | Takes(dog: bool) | Wipes(dog: bool) | Drops(dog: bool)   // `lock_now`, of the watchdog or of the poller

  datatype Event = Event(at: real, action: Action)

  // ---------------------------------------------------------------- one step

  /** `saturating_duration_since`. */
  function Elapsed(now: real, since: real): (d: real)
    ensures d >= 0.0 && (since <= now ==> since + d == now) && (now <= since ==> d == 0.0)
  {
    if now < since then 0.0 else now - since
  }

  /** 7 days. */
  const MAX_WINDOW_MINUTES: real := 10_080.0

  predicate Usable(m: Minutes) {
    m.Finite? && 0.0 <= m.value <= MAX_WINDOW_MINUTES
  }

  /** `due`. */
  predicate Due(s: State, now: real) {
    Usable(s.minutes) &&
    match s.trigger
    case Off => false
    case Idle => s.minutes.value > 0.0 && Elapsed(now, s.lastActivity) >= s.minutes.value * 60.0
    case ScreenLock => s.since.Some? && Elapsed(now, s.since.value) >= s.minutes.value * 60.0
  }

  function StoredMinutes(m: Minutes): Minutes {
    if m.Finite? && m.value > 0.0 then m else Finite(0.0)
  }

  function StoredTrigger(t: Trigger, m: Minutes): Trigger {
    if t.Idle? && StoredMinutes(m) == Finite(0.0) then Off else t
  }

  predicate Armed(s: State) {
    s.trigger.ScreenLock? && s.session
  }

  /** Where `lock_now` stands in one of the loops. */
  function LockAt(s: State, dog: bool): Option<Section> {
    if dog then s.watchdog else if s.poller.Locking? then Some(s.poller.next) else None
  }

  function WithLock(s: State, dog: bool, next: Option<Section>): State {
    if dog then s.(watchdog := next) else s.(poller := if next.Some? then Locking(next.value) else Asleep)
  }

  function Step(s: State, e: Event): State {
    match e.action
    case SetAutoLock(t, m) =>
      var trigger := StoredTrigger(t, m);
      s.(trigger := trigger, minutes := StoredMinutes(m), since := if trigger != s.trigger then None else s.since)
    case MarkActivity => s.(lastActivity := e.at)
    case OpenSession => s.(session := true)
    case StopAgent => s.(agent := false)
    case CloseSession => s.(session := false)
    case ForgetSecondFactor => s.(pending := false)
    case Arm =>
      if !s.poller.Asleep? then s
      else if !Armed(s) then s.(since := None)
      else s.(poller := Probing)
    case Observe(locked) =>
      if !s.poller.Probing? then s
      else
        var since := if locked == Some(true) then (if s.since.None? then Some(e.at) else s.since)
                     else if locked == Some(false) then None else s.since;
        s.(since := since, poller := Judging)
    case StartAgent => s.(agent := true)
    case ParkSecondFactor => s.(pending := true)
    case PollerJudges =>
      if !s.poller.Judging? then s else s.(poller := if Due(s, e.at) then Locking(Taking) else Asleep)
    case WatchdogJudges => if s.watchdog.Some? || !Due(s, e.at) then s else s.(watchdog := Some(Taking))
    case Takes(dog) => if LockAt(s, dog) != Some(Taking) then s else WithLock(s.(agent := false), dog, Some(Wiping))
    case Wipes(dog) => if LockAt(s, dog) != Some(Wiping) then s else WithLock(s.(pending := false), dog, Some(Dropping))
    case Drops(dog) => if LockAt(s, dog) != Some(Dropping) then s else WithLock(s.(session := false), dog, None)
  }

  /** The program starts without a session and with auto-lock off. */
  function Start(now: real): State {
    State(Off, Finite(0.0), None, now, false, false, false, Asleep, None)
  }

  /** The state after a run, the last event last. */
  function Run(start: real, events: seq<Event>): State {
    if events == [] then Start(start) else Step(Run(start, events[..|events| - 1]), events[|events| - 1])
  }

  // ------------------------------------------------------- what the countdown means

  /** What an event means for the countdown. */
  datatype Mark = Reset | SawLocked | Nothing

  function Effect(s: State, a: Action): Mark {
    match a
    case SetAutoLock(t, m) => if StoredTrigger(t, m) != s.trigger then Reset else Nothing
    case Arm => if s.poller.Asleep? && !Armed(s) then Reset else Nothing
    case Observe(locked) =>
      if !s.poller.Probing? then Nothing
      else if locked == Some(true) then SawLocked
      else if locked == Some(false) then Reset
      else Nothing
    case _ => Nothing
  }

  function MarkAt(start: real, events: seq<Event>, k: nat): Mark
    requires k < |events|
  {
    Effect(Run(start, events[..k]), events[k].action)
  }

  predicate ResetBetween(start: real, events: seq<Event>, j: nat, k: nat)
    requires k <= |events|
  {
    exists r: nat :: j < r < k && MarkAt(start, events, r) == Reset
  }

  /** Event `k` is the first sight of a locked screen since the last reset, and nothing has reset it since. */
  predicate StartsCountdown(start: real, events: seq<Event>, k: nat) {
    && k < |events| && MarkAt(start, events, k) == SawLocked && !ResetBetween(start, events, k, |events|)
    && forall j: nat :: j < k && MarkAt(start, events, j) == SawLocked ==> ResetBetween(start, events, j, k)
  }

  /** No sight of a locked screen has survived. */
  predicate NoCountdown(start: real, events: seq<Event>) {
    forall j: nat :: j < |events| && MarkAt(start, events, j) == SawLocked ==> ResetBetween(start, events, j, |events|)
  }

  lemma MarkFront(start: real, events: seq<Event>, k: nat)
    requires k + 1 < |events|
    ensures MarkAt(start, events, k) == MarkAt(start, events[..|events| - 1], k)
  {
    assert events[..|events| - 1][..k] == events[..k];
  }

  lemma ResetFront(start: real, events: seq<Event>, j: nat, k: nat)
    requires k < |events|
    ensures ResetBetween(start, events, j, k) <==> ResetBetween(start, events[..|events| - 1], j, k)
  {
    var front := events[..|events| - 1];
    forall r: nat | j < r < k ensures MarkAt(start, events, r) == MarkAt(start, front, r) {
      MarkFront(start, events, r);
    }
  }

  lemma LatestEffect(start: real, events: seq<Event>)
    requires events != []
    ensures MarkAt(start, events, |events| - 1)
      == Effect(Run(start, events[..|events| - 1]), events[|events| - 1].action)
  {
  }

  lemma CountdownGoesOn(start: real, events: seq<Event>, k: nat)
    requires events != [] && StartsCountdown(start, events[..|events| - 1], k)
      && MarkAt(start, events, |events| - 1) != Reset
    ensures StartsCountdown(start, events, k)
  {
    var front, n := events[..|events| - 1], |events| - 1;
    MarkFront(start, events, k);
    ResetFront(start, events, k, n);
    forall j: nat | j < k && MarkAt(start, events, j) == SawLocked ensures ResetBetween(start, events, j, k) {
      MarkFront(start, events, j);
      ResetFront(start, events, j, k);
    }
  }

  lemma ResetEndsCountdown(start: real, events: seq<Event>)
    requires events != [] && MarkAt(start, events, |events| - 1) == Reset
    ensures NoCountdown(start, events)
  {
  }

  lemma NoCountdownGoesOn(start: real, events: seq<Event>)
    requires events != [] && NoCountdown(start, events[..|events| - 1])
      && MarkAt(start, events, |events| - 1) == Nothing
    ensures NoCountdown(start, events)
  {
    forall j: nat | j < |events| && MarkAt(start, events, j) == SawLocked
      ensures ResetBetween(start, events, j, |events|)
    {
      MarkFront(start, events, j);
      ResetFront(start, events, j, |events| - 1);
    }
  }

  lemma CountdownStarts(start: real, events: seq<Event>)
    requires events != [] && NoCountdown(start, events[..|events| - 1])
      && MarkAt(start, events, |events| - 1) == SawLocked
    ensures StartsCountdown(start, events, |events| - 1)
  {
    var n: nat := |events| - 1;
    forall j: nat | j < n && MarkAt(start, events, j) == SawLocked ensures ResetBetween(start, events, j, n) {
      MarkFront(start, events, j);
      ResetFront(start, events, j, n);
    }
  }

  lemma StepAndMark(s: State, e: Event)
    ensures Effect(s, e.action) == Reset ==> Step(s, e).since == None
    ensures Effect(s, e.action) == Nothing ==> Step(s, e).since == s.since
    ensures Effect(s, e.action) == SawLocked ==> Step(s, e).since == if s.since.None? then Some(e.at) else s.since
  {
  }

  /**
   * After every run the countdown started at the first sight of a locked screen since the last unlocked sight,
   * disarming or change of trigger: later sights and failed probes never push it forward.
   */
  lemma {:induction false} SinceIsFirstSight(start: real, events: seq<Event>) returns (k: nat)
    ensures var since := Run(start, events).since;
      && (since.None? ==> NoCountdown(start, events))
      && (since.Some? ==> StartsCountdown(start, events, k) && events[k].at == since.value)
    decreases |events|
  {
    k := 0;
    if events != [] {
      var front, last := events[..|events| - 1], events[|events| - 1];
      var s := Run(start, front);
      k := SinceIsFirstSight(start, front);
      StepAndMark(s, last);
      LatestEffect(start, events);
      hide Effect, StartsCountdown, NoCountdown, MarkAt;
      if MarkAt(start, events, |events| - 1) == Reset {
        ResetEndsCountdown(start, events);
      } else if s.since.Some? {
        CountdownGoesOn(start, events, k);
      } else if MarkAt(start, events, |events| - 1) == SawLocked {
        CountdownStarts(start, events);
        k := |events| - 1;
      } else {
        NoCountdownGoesOn(start, events);
      }
    }
  }

  /** The first sight of a locked screen that nothing has reset is where the countdown stands. */
  lemma FirstSightIsSince(start: real, events: seq<Event>, k: nat)
    requires StartsCountdown(start, events, k)
    ensures Run(start, events).since == Some(events[k].at)
  {
    var j := SinceIsFirstSight(start, events);
  }

  lemma MarkEarlier(start: real, events: seq<Event>, n: nat, k: nat)
    requires k < n <= |events|
    ensures MarkAt(start, events[..n], k) == MarkAt(start, events, k)
  {
    assert events[..n][..k] == events[..k];
  }

  lemma CountdownEarlier(start: real, events: seq<Event>, n: nat, k: nat)
    requires k < n <= |events| && StartsCountdown(start, events, k)
    ensures StartsCountdown(start, events[..n], k)
  {
    var front := events[..n];
    MarkEarlier(start, events, n, k);
    forall r: nat | r < n ensures MarkAt(start, front, r) == MarkAt(start, events, r) {
      MarkEarlier(start, events, n, r);
    }
    forall j: nat | j < k && MarkAt(start, front, j) == SawLocked ensures ResetBetween(start, front, j, k) {
      var r: nat :| j < r < k && MarkAt(start, events, r) == Reset;
      assert MarkAt(start, front, r) == Reset;
    }
  }

  // ------------------------------------------------------------- never early

  predicate InOrder(start: real, events: seq<Event>) {
    && (forall i, j :: 0 <= i < j < |events| ==> events[i].at <= events[j].at)
    && forall i :: 0 <= i < |events| ==> start <= events[i].at
  }

  /** The last `mark_activity`, or the start of the program. */
  function LastMark(start: real, events: seq<Event>): real {
    if events == [] then start
    else
      var last := events[|events| - 1];
      if last.action.MarkActivity? then last.at else LastMark(start, events[..|events| - 1])
  }

  lemma {:induction false} LastActivityIsLastMark(start: real, events: seq<Event>)
    ensures Run(start, events).lastActivity == LastMark(start, events)
  {
    if events != [] {
      LastActivityIsLastMark(start, events[..|events| - 1]);
    }
  }

  /** No mark comes after the last one, which is at the start or at an event. */
  lemma {:induction false} LastMarkIsLast(start: real, events: seq<Event>)
    requires InOrder(start, events)
    ensures start <= LastMark(start, events)
    ensures forall i: nat :: i < |events| && events[i].action.MarkActivity? ==> events[i].at <= LastMark(start, events)
    ensures LastMark(start, events) == start
      || exists i: nat :: i < |events| && events[i].action.MarkActivity? && events[i].at == LastMark(start, events)
    decreases |events|
  {
    if events != [] {
      var front, n: nat := events[..|events| - 1], |events| - 1;
      LastMarkIsLast(start, front);
      assert forall i: nat :: i < n ==> front[i] == events[i];
      if !events[n].action.MarkActivity? && LastMark(start, front) != start {
        var i: nat :| i < |front| && front[i].action.MarkActivity? && front[i].at == LastMark(start, front);
        assert events[i].action.MarkActivity?;
      }
    }
  }

  /** A loop in the state in which it decides: the watchdog (`dog`) or the poller. */
  predicate Decides(s: State, a: Action, dog: bool) {
    if dog then a.WatchdogJudges? && s.watchdog.None? else a.PollerJudges? && s.poller.Judging?
  }

  predicate Judges(start: real, events: seq<Event>, dog: bool, j: nat) {
    j < |events| && Decides(Run(start, events[..j]), events[j].action, dog)
  }

  predicate DueAt(start: real, events: seq<Event>, j: nat)
    requires j < |events|
  {
    Due(Run(start, events[..j]), events[j].at)
  }

  /** No `mark_activity` within the window before event `j`, nor the start of the program. */
  predicate QuietFor(start: real, events: seq<Event>, j: nat, window: real)
    requires j < |events|
  {
    && events[j].at - start >= window
    && forall i: nat :: i < j && events[i].action.MarkActivity? ==> events[j].at - events[i].at >= window
  }

  /** Under the idle trigger the verdict is to lock exactly when a whole usable window went by without a mark. */
  lemma IdleVerdictExactly(start: real, events: seq<Event>, j: nat)
    requires InOrder(start, events) && j < |events| && Run(start, events[..j]).trigger.Idle?
    ensures var m := Run(start, events[..j]).minutes;
      DueAt(start, events, j) <==> Usable(m) && QuietFor(start, events, j, m.value * 60.0)
  {
    var before := events[..j];
    StoredSettingsAreSane(start, before);
    LastActivityIsLastMark(start, before);
    LastMarkIsLast(start, before);
    assert forall i: nat :: i < j ==> before[i] == events[i];
  }

  /**
   * A verdict to lock is never early: the whole window has passed since the screen was first seen locked, or since the
   * last mark of activity; and with the trigger off there is no verdict at all.
   */
  lemma NeverEarly(start: real, events: seq<Event>, j: nat) returns (k: nat)
    requires InOrder(start, events) && j < |events| && DueAt(start, events, j)
    ensures var s := Run(start, events[..j]);
      && Usable(s.minutes) && !s.trigger.Off?
      && (s.trigger.ScreenLock? ==>
            StartsCountdown(start, events[..j], k) && events[j].at - events[k].at >= s.minutes.value * 60.0)
      && (s.trigger.Idle? ==> QuietFor(start, events, j, s.minutes.value * 60.0))
  {
    var before := events[..j];
    var s := Run(start, before);
    k := SinceIsFirstSight(start, before);
    if s.trigger.Idle? {
      IdleVerdictExactly(start, events, j);
    } else if s.minutes.value == 0.0 {
      assert events[k].at <= events[j].at;
    }
  }

  /**
   * Opening a session is no mark: the first watchdog round after it drops the new session exactly when the last mark,
   * made before the session existed, is already a whole window old.
   */
  lemma NewSessionLockedExactly(start: real, events: seq<Event>, at: real, tick: real, later: real)
    requires var s := Run(start, events); s.trigger.Idle? && Usable(s.minutes) && s.watchdog.None?
    requires InOrder(start, events) && tick >= LastMark(start, events)
    ensures var run := events + [Event(at, OpenSession)] + [Event(tick, WatchdogJudges)] + LockSteps(true, later);
      !Run(start, run).session <==> tick - LastMark(start, events) >= Run(start, events).minutes.value * 60.0
  {
    StoredSettingsAreSane(start, events);
    LastActivityIsLastMark(start, events);
    var open := events + [Event(at, OpenSession)];
    var judged := open + [Event(tick, WatchdogJudges)];
    RunMore(start, events, Event(at, OpenSession));
    RunMore(start, open, Event(tick, WatchdogJudges));
    RunPlus(start, judged, LockSteps(true, later));
    LockStepsDo(Run(start, judged), true, later);
  }

  /** All of `lock_now`, in one go. */
  function LockSteps(dog: bool, at: real): (steps: seq<Event>)
    ensures |steps| == 3 && forall i :: 0 <= i < 3 ==> steps[i].at == at
    ensures forall i :: 0 <= i < 3 ==> !steps[i].action.SetAutoLock? && !steps[i].action.MarkActivity?
  {
    [Event(at, Takes(dog)), Event(at, Wipes(dog)), Event(at, Drops(dog))]
  }

  /** From wherever a loop's `lock_now` stands, its steps finish it; without one they do nothing. */
  lemma LockStepsDo(s: State, dog: bool, at: real)
    ensures var s' := RunFrom(s, LockSteps(dog, at));
      && LockAt(s', dog).None? && LockAt(s', !dog) == LockAt(s, !dog)
      && (LockAt(s, dog).None? ==> s' == s)
      && (LockAt(s, dog).Some? ==> !s'.session && (!dog ==> s'.poller.Asleep?))
      && (LockAt(s, dog) == Some(Taking) ==> !s'.agent && !s'.pending)
      && s'.trigger == s.trigger && s'.minutes == s.minutes && s'.since == s.since
      && s'.lastActivity == s.lastActivity
      && s' == Step(Step(Step(s, Event(at, Takes(dog))), Event(at, Wipes(dog))), Event(at, Drops(dog)))
  {
    var c, d, e := Event(at, Takes(dog)), Event(at, Wipes(dog)), Event(at, Drops(dog));
    ThreeSteps(s, c, d, e);
    hide RunFrom;
    LockFinishes(s, dog, at);
  }

  lemma LockFinishes(s: State, dog: bool, at: real)
    ensures var s' := Step(Step(Step(s, Event(at, Takes(dog))), Event(at, Wipes(dog))), Event(at, Drops(dog)));
      && LockAt(s', dog).None? && LockAt(s', !dog) == LockAt(s, !dog)
      && (LockAt(s, dog).None? ==> s' == s)
      && (LockAt(s, dog).Some? ==> !s'.session && (!dog ==> s'.poller.Asleep?))
      && (LockAt(s, dog) == Some(Taking) ==> !s'.agent && !s'.pending)
      && s'.trigger == s.trigger && s'.minutes == s.minutes && s'.since == s.since
      && s'.lastActivity == s.lastActivity
  {
    hide Due;
    var s1 := Step(s, Event(at, Takes(dog)));
    var s2 := Step(s1, Event(at, Wipes(dog)));
    var s3 := Step(s2, Event(at, Drops(dog)));
    match LockAt(s, dog)
    case None => assert s1 == s && s2 == s && s3 == s;
    case Some(next) =>
      assert next.Taking? ==> LockAt(s1, dog) == Some(Wiping) && !s1.agent;
      assert next.Wiping? || next.Dropping? ==> s1 == s;
      assert !next.Dropping? ==> LockAt(s2, dog) == Some(Dropping) && !s2.pending;
      assert next.Dropping? ==> s2 == s1;
      assert LockAt(s3, dog).None? && !s3.session;
  }

  lemma TwoSteps(s: State, d: Event, e: Event)
    ensures RunFrom(s, [d, e]) == Step(Step(s, d), e)
  {
    hide Step;
    assert [d, e][1..] == [e] && [e][1..] == [];
    assert RunFrom(Step(s, d), [e]) == RunFrom(Step(Step(s, d), e), []);
  }

  lemma ThreeSteps(s: State, c: Event, d: Event, e: Event)
    ensures RunFrom(s, [c, d, e]) == Step(Step(Step(s, c), d), e)
  {
    hide Step;
    assert [c, d, e][1..] == [d, e];
    TwoSteps(Step(s, c), d, e);
  }

  lemma RunMore(start: real, events: seq<Event>, e: Event)
    ensures Run(start, events + [e]) == Step(Run(start, events), e)
  {
    assert (events + [e])[..|events|] == events;
  }

  function RunFrom(s: State, events: seq<Event>): State
    decreases |events|
  {
    if events == [] then s else RunFrom(Step(s, events[0]), events[1..])
  }

  lemma NoSteps(s: State)
    ensures RunFrom(s, []) == s
  {
  }

  lemma {:induction false} OneStep(s: State, events: seq<Event>, k: nat)
    requires k < |events|
    ensures RunFrom(s, events[k..]) == RunFrom(Step(s, events[k]), events[k + 1..])
  {
    assert events[k..][1..] == events[k + 1..];
  }

  lemma {:induction false} RunPlus(start: real, events: seq<Event>, more: seq<Event>)
    ensures Run(start, events + more) == RunFrom(Run(start, events), more)
    decreases |more|
  {
    hide *;
    if more == [] {
      NoSteps(Run(start, events));
      assert events + more == events;
    } else {
      RunMore(start, events, more[0]);
      RunPlus(start, events + [more[0]], more[1..]);
      OneStep(Run(start, events), more, 0);
      assert more[0..] == more && events + [more[0]] + more[1..] == events + more;
    }
  }

  lemma Extend(start: real, events: seq<Event>, s: State, e: Event) returns (events': seq<Event>, s': State)
    requires Run(start, events) == s && InOrder(start, events) && LastTime(start, events) <= e.at
    ensures events' == events + [e] && Run(start, events') == s' == Step(s, e)
    ensures InOrder(start, events') && LastTime(start, events') == e.at
  {
    events', s' := events + [e], Step(s, e);
    RunMore(start, events, e);
  }

  /** Ten minutes of idle time armed at the start, a login at 700 s: the watchdog's next round drops the new session. */
  lemma LoginLockedASecondLater() returns (events: seq<Event>)
    ensures InOrder(0.0, events) && |events| == 6
    ensures events[1] == Event(700.0, OpenSession) && events[5] == Event(701.0, Drops(true))
    ensures Run(0.0, events[..2]).session && !Run(0.0, events).session
  {
    hide Run, InOrder;
    var s;
    events, s := [], Start(0.0);
    NothingRun(0.0);
    events, s := Extend(0.0, events, s, Event(0.0, SetAutoLock(Idle, Finite(10.0))));
    events, s := Extend(0.0, events, s, Event(700.0, OpenSession));
    var open := events;
    events, s := Extend(0.0, events, s, Event(701.0, WatchdogJudges));
    assert s.watchdog == Some(Taking);
    events, s := Extend(0.0, events, s, Event(701.0, Takes(true)));
    events, s := Extend(0.0, events, s, Event(701.0, Wipes(true)));
    events, s := Extend(0.0, events, s, Event(701.0, Drops(true)));
    assert events[..2] == open;
  }

  lemma NothingRun(start: real)
    ensures Run(start, []) == Start(start) && InOrder(start, [])
  {
  }

  // ------------------------------------------------- only a verdict closes a session

  predicate AboutToLock(s: State, dog: bool) {
    LockAt(s, dog).Some?
  }

  /** A loop inside `lock_now` moves on by its own sections alone, in order, and judges no more until it is done. */
  lemma LockMovesOn(s: State, e: Event, dog: bool)
    requires LockAt(s, dog).Some?
    ensures LockAt(Step(s, e), dog) ==
      match LockAt(s, dog).value
      case Taking => if e.action == Takes(dog) then Some(Wiping) else Some(Taking)
      case Wiping => if e.action == Wipes(dog) then Some(Dropping) else Some(Wiping)
      case Dropping => if e.action == Drops(dog) then None else Some(Dropping)
  {
    hide Due, StoredTrigger, StoredMinutes;
  }

  /** The event is a loop's last section of `lock_now`, and not an idle one. */
  predicate Finishes(start: real, events: seq<Event>, dog: bool, k: nat)
    requires k < |events|
  {
    events[k].action == Drops(dog) && LockAt(Run(start, events[..k]), dog) == Some(Dropping)
  }

  /** A verdict to lock by one of the loops, which that loop has not yet carried out. */
  predicate Pending(start: real, events: seq<Event>, dog: bool, j: nat) {
    && j < |events| && Judges(start, events, dog, j) && DueAt(start, events, j)
    && forall k: nat :: j < k < |events| ==> !Finishes(start, events, dog, k)
  }

  lemma PendingFront(start: real, events: seq<Event>, dog: bool, j: nat)
    requires events != [] && j + 1 < |events|
    ensures Pending(start, events, dog, j)
      <==> Pending(start, events[..|events| - 1], dog, j) && !Finishes(start, events, dog, |events| - 1)
  {
    var front := events[..|events| - 1];
    assert front[..j] == events[..j] && front[j] == events[j];
    forall k: nat | j < k < |front| ensures Finishes(start, front, dog, k) <==> Finishes(start, events, dog, k) {
      assert front[..k] == events[..k];
    }
  }

  lemma {:induction false} LockingMeansVerdict(start: real, events: seq<Event>, dog: bool) returns (j: nat)
    requires AboutToLock(Run(start, events), dog)
    ensures Pending(start, events, dog, j)
    decreases |events|
  {
    var front, n: nat := events[..|events| - 1], |events| - 1;
    if AboutToLock(Run(start, front), dog) {
      j := LockingMeansVerdict(start, front, dog);
      PendingFront(start, events, dog, j);
      hide Pending;
    } else {
      j := n;
    }
  }

  /** A session that ends other than by the user's hand was ended by a verdict of one of the loops, carried out once. */
  lemma OnlyVerdictsLock(start: real, events: seq<Event>) returns (j: nat)
    requires events != []
    requires Run(start, events[..|events| - 1]).session && !Run(start, events).session
    ensures var last := events[|events| - 1].action;
      last.CloseSession? || (last.Drops? && Pending(start, events[..|events| - 1], last.dog, j))
  {
    j := 0;
    var last := events[|events| - 1].action;
    if !last.CloseSession? {
      j := LockingMeansVerdict(start, events[..|events| - 1], last.dog);
    }
  }

  // ------------------------------------------------- what is held, and since when

  /** What locking takes away. */
  datatype Asset = Session | Agent | SecondFactor

  predicate Held(s: State, what: Asset) {
    match what case Session => s.session case Agent => s.agent case SecondFactor => s.pending
  }

  /** The event brings it. */
  predicate Gives(a: Action, what: Asset) {
    match what case Session => a.OpenSession? case Agent => a.StartAgent? case SecondFactor => a.ParkSecondFactor?
  }

  /** The event takes it away: by the user's hand, or as the section of a `lock_now` that is there. */
  predicate Removes(s: State, a: Action, what: Asset) {
    match what
    case Session => a.CloseSession? || (a.Drops? && LockAt(s, a.dog) == Some(Dropping))
    case Agent => a.StopAgent? || (a.Takes? && LockAt(s, a.dog) == Some(Taking))
    case SecondFactor => a.ForgetSecondFactor? || (a.Wipes? && LockAt(s, a.dog) == Some(Wiping))
  }

  predicate RemovesAt(start: real, events: seq<Event>, k: nat, what: Asset)
    requires k < |events|
  {
    Removes(Run(start, events[..k]), events[k].action, what)
  }

  /** It was given at event `i`, and has not been taken away since. */
  ghost predicate HeldSince(start: real, events: seq<Event>, i: nat, what: Asset) {
    && i < |events| && Gives(events[i].action, what)
    && forall k: nat :: i < k < |events| ==> !RemovesAt(start, events, k, what)
  }

  lemma HeldStep(s: State, e: Event, what: Asset)
    ensures Held(Step(s, e), what) <==> Gives(e.action, what) || (Held(s, what) && !Removes(s, e.action, what))
    ensures !(Gives(e.action, what) && Removes(s, e.action, what))
  {
    hide Due, StoredTrigger, StoredMinutes;
  }

  lemma HeldFront(start: real, events: seq<Event>, i: nat, what: Asset)
    requires i + 1 < |events|
    ensures HeldSince(start, events, i, what)
      <==> HeldSince(start, events[..|events| - 1], i, what) && !RemovesAt(start, events, |events| - 1, what)
  {
    var front := events[..|events| - 1];
    forall k: nat | k < |front| ensures RemovesAt(start, front, k, what) <==> RemovesAt(start, events, k, what) {
      assert front[..k] == events[..k];
    }
    hide RemovesAt;
  }

  /**
   * Whatever has run, there is a session exactly when one was opened that neither the user has closed nor a loop has
   * dropped since; and so with the agent and a second factor that was parked.
   */
  lemma {:induction false} HeldExactly(start: real, events: seq<Event>, what: Asset)
    ensures Held(Run(start, events), what) <==> exists i: nat :: HeldSince(start, events, i, what)
    decreases |events|
  {
    if events != [] {
      var front, n: nat := events[..|events| - 1], |events| - 1;
      HeldExactly(start, front, what);
      HeldStep(Run(start, front), events[n], what);
      assert RemovesAt(start, events, n, what) <==> Removes(Run(start, front), events[n].action, what);
      forall i: nat | i < n
        ensures HeldSince(start, events, i, what)
          <==> HeldSince(start, front, i, what) && !RemovesAt(start, events, n, what)
      {
        HeldFront(start, events, i, what);
      }
      assert HeldSince(start, events, n, what) <==> Gives(events[n].action, what);
      hide Step, Held, Gives, Removes, RemovesAt, HeldSince;
      if i: nat :| HeldSince(start, front, i, what) {
        HeldIndex(start, front, i, what);
      }
      if i: nat :| HeldSince(start, events, i, what) {
        HeldIndex(start, events, i, what);
      }
    }
  }

  lemma HeldIndex(start: real, events: seq<Event>, i: nat, what: Asset)
    requires HeldSince(start, events, i, what)
    ensures i < |events|
  {
  }

  lemma {:induction false} VerdictStands(start: real, events: seq<Event>, dog: bool, j: nat)
    requires Pending(start, events, dog, j)
    ensures AboutToLock(Run(start, events), dog)
    decreases |events|
  {
    var front, n: nat := events[..|events| - 1], |events| - 1;
    if j < n {
      PendingFront(start, events, dog, j);
      VerdictStands(start, front, dog, j);
      assert Run(start, events) == Step(Run(start, front), events[n]);
      LockGoesOn(Run(start, front), events[n], dog);
      hide Pending, Step;
    }
  }

  lemma LockGoesOn(s: State, e: Event, dog: bool)
    requires LockAt(s, dog).Some? && !(e.action == Drops(dog) && LockAt(s, dog) == Some(Dropping))
    ensures LockAt(Step(s, e), dog).Some?
  {
    hide Due;
  }

  /** Whatever else happens meanwhile, a loop that has given its verdict drops the session with its next steps. */
  lemma VerdictIsCarriedOut(start: real, events: seq<Event>, dog: bool, j: nat, at: real)
    requires Pending(start, events, dog, j)
    ensures !Run(start, events + LockSteps(dog, at)).session
  {
    VerdictStands(start, events, dog, j);
    RunPlus(start, events, LockSteps(dog, at));
    LockStepsDo(Run(start, events), dog, at);
  }

  // ------------------------------------------ a verdict that has become stale

  /** No mark since event `j` is younger than the window at time `at`. */
  predicate NoFreshMark(events: seq<Event>, j: nat, at: real, window: real) {
    forall i: nat :: j < i < |events| && events[i].action.MarkActivity? ==> at - events[i].at >= window
  }

  lemma IdleDueNow(start: real, events: seq<Event>, at: real)
    requires InOrder(start, events) && LastTime(start, events) <= at && Run(start, events).trigger.Idle?
    ensures var m := Run(start, events).minutes;
      Due(Run(start, events), at)
      <==> Usable(m) && QuietFor(start, events + [Event(at, WatchdogJudges)], |events|, m.value * 60.0)
  {
    var all := events + [Event(at, WatchdogJudges)];
    assert all[..|events|] == events;
    assert DueAt(start, all, |events|) <==> Due(Run(start, events), at);
    hide *;
    OrderedPlus(start, events, Event(at, WatchdogJudges));
    IdleVerdictExactly(start, all, |events|);
  }

  /**
   * Idle, under a setting that stays: when a verdict is carried out, the vault is still due exactly when nothing was
   * marked since the verdict that is younger than the window.
   */
  lemma IdleStillDueExactly(start: real, events: seq<Event>, dog: bool, j: nat, at: real)
    requires Pending(start, events, dog, j) && InOrder(start, events) && LastTime(start, events) <= at
    requires Settled(start, events, j) && Run(start, events[..j]).trigger.Idle?
    ensures Due(Run(start, events), at)
      <==> NoFreshMark(events, j, at, Run(start, events[..j]).minutes.value * 60.0)
  {
    var m := Run(start, events[..j]).minutes;
    assert events[..|events|] == events;
    assert !events[j].action.MarkActivity? && DueAt(start, events, j);
    hide *;
    SettingStays(start, events, j, |events|);
    IdleVerdictExactly(start, events, j);
    QuietSince(start, events, j, at, m.value * 60.0);
    IdleDueNow(start, events, at);
  }

  lemma QuietSince(start: real, events: seq<Event>, j: nat, at: real, window: real)
    requires InOrder(start, events) && LastTime(start, events) <= at && j < |events|
    requires QuietFor(start, events, j, window) && !events[j].action.MarkActivity?
    ensures QuietFor(start, events + [Event(at, WatchdogJudges)], |events|, window)
      <==> NoFreshMark(events, j, at, window)
  {
    var all := events + [Event(at, WatchdogJudges)];
    TimeIs(start, events, j);
    hide InOrder, LastTime;
    assert forall i: nat :: i < |events| ==> all[i] == events[i];
    if QuietFor(start, all, |events|, window) {
      forall i: nat | j < i < |events| && events[i].action.MarkActivity? ensures at - events[i].at >= window {
        assert all[i] == events[i];
      }
    }
    if NoFreshMark(events, j, at, window) {
      forall i: nat | i < |events| && all[i].action.MarkActivity? ensures at - all[i].at >= window {
        assert i < j ==> events[j].at - events[i].at >= window;
      }
    }
  }

  lemma OrderedPlus(start: real, events: seq<Event>, e: Event)
    requires InOrder(start, events) && LastTime(start, events) <= e.at
    ensures InOrder(start, events + [e])
  {
  }

  lemma {:induction false} SinceStays(start: real, events: seq<Event>, j: nat, n: nat)
    requires j <= n <= |events| && Run(start, events[..j]).since.Some?
    requires forall r: nat :: j <= r < n ==> MarkAt(start, events, r) != Reset
    ensures Run(start, events[..n]).since == Run(start, events[..j]).since
    decreases n
  {
    if j < n {
      SinceStays(start, events, j, n - 1);
      assert events[..n] == events[..n - 1] + [events[n - 1]];
      RunMore(start, events[..n - 1], events[n - 1]);
      StepAndMark(Run(start, events[..n - 1]), events[n - 1]);
      assert MarkAt(start, events, n - 1) != Reset;
      hide Step, Effect;
    }
  }

  /** A countdown that began after event `j` has run its window by `at`. */
  ghost predicate NewCountdown(start: real, events: seq<Event>, j: nat, at: real, window: real) {
    exists k: nat :: j < k && StartsCountdown(start, events, k) && at - events[k].at >= window
  }

  /**
   * Screen lock, under a setting that stays: it is still due exactly when nothing has reset the countdown since the
   * verdict, or a countdown that began after it has run its window as well.
   */
  lemma ScreenStillDueExactly(start: real, events: seq<Event>, dog: bool, j: nat, at: real)
    requires Pending(start, events, dog, j) && InOrder(start, events) && LastTime(start, events) <= at
    requires Settled(start, events, j) && Run(start, events[..j]).trigger.ScreenLock?
    ensures var window := Run(start, events[..j]).minutes.value * 60.0;
      Due(Run(start, events), at)
      <==> !ResetBetween(start, events, j, |events|) || NewCountdown(start, events, j, at, window)
  {
    SettingStays(start, events, j, |events|);
    assert events[..|events|] == events;
    hide Run, MarkAt, Due, NewCountdown, Pending;
    if ResetBetween(start, events, j, |events|) {
      DueAfterReset(start, events, j, at);
    } else {
      StillDue(start, events, dog, j, at);
    }
  }

  lemma StillDue(start: real, events: seq<Event>, dog: bool, j: nat, at: real)
    requires Pending(start, events, dog, j) && InOrder(start, events) && LastTime(start, events) <= at
    requires !ResetBetween(start, events, j, |events|)
    requires var before, s := Run(start, events[..j]), Run(start, events);
      before.trigger == s.trigger == ScreenLock && before.minutes == s.minutes
    ensures Due(Run(start, events), at)
  {
    JudgingResetsNothing(start, events, dog, j);
    StoredSettingsAreSane(start, events[..j]);
    assert events[j].at <= at;
    hide Run, MarkAt;
    SinceStays(start, events, j, |events|);
    assert events[..|events|] == events;
  }

  lemma DueAfterReset(start: real, events: seq<Event>, j: nat, at: real)
    requires ResetBetween(start, events, j, |events|) && InOrder(start, events) && LastTime(start, events) <= at
    requires var s := Run(start, events); s.trigger.ScreenLock? && Usable(s.minutes)
    ensures Due(Run(start, events), at)
      <==> NewCountdown(start, events, j, at, Run(start, events).minutes.value * 60.0)
  {
    hide Run, MarkAt, Due, InOrder, ResetBetween, StartsCountdown, LastTime;
    var s := Run(start, events);
    DueIs(s, at);
    var k := SinceAfterReset(start, events, j);
    if s.since.Some? {
      CountdownIs(start, events, k, at);
    }
    forall i: nat | StartsCountdown(start, events, i)
      ensures i < |events| && s.since == Some(events[i].at) && events[i].at <= at
    {
      CountdownIs(start, events, i, at);
    }
  }

  lemma SinceAfterReset(start: real, events: seq<Event>, j: nat) returns (k: nat)
    requires ResetBetween(start, events, j, |events|)
    ensures var since := Run(start, events).since;
      since.Some? ==> j < k && StartsCountdown(start, events, k) && events[k].at == since.value
  {
    k := SinceIsFirstSight(start, events);
    var r: nat :| j < r < |events| && MarkAt(start, events, r) == Reset;
    if Run(start, events).since.Some? {
      CountdownAfterReset(start, events, k, r);
    }
  }

  lemma CountdownIs(start: real, events: seq<Event>, i: nat, at: real)
    requires StartsCountdown(start, events, i) && InOrder(start, events) && LastTime(start, events) <= at
    ensures i < |events| && Run(start, events).since == Some(events[i].at) && events[i].at <= at
  {
    FirstSightIsSince(start, events, i);
    TimeIs(start, events, i);
  }

  lemma TimeIs(start: real, events: seq<Event>, i: nat)
    requires InOrder(start, events) && i < |events|
    ensures events[i].at <= LastTime(start, events)
  {
  }

  lemma CountdownAfterReset(start: real, events: seq<Event>, k: nat, r: nat)
    requires StartsCountdown(start, events, k) && r < |events| && MarkAt(start, events, r) == Reset
    ensures r < k
  {
  }

  lemma DueIs(s: State, at: real)
    requires s.trigger.ScreenLock? && Usable(s.minutes)
    ensures Due(s, at) <==> s.since.Some? && Elapsed(at, s.since.value) >= s.minutes.value * 60.0
  {
  }

  lemma JudgingResetsNothing(start: real, events: seq<Event>, dog: bool, j: nat)
    requires Judges(start, events, dog, j)
    ensures MarkAt(start, events, j) != Reset
  {
  }

  /** Which event opened the session that is open now, or -1 when none is. */
  function OpenedAt(start: real, events: seq<Event>): int {
    if events == [] || !Run(start, events).session then -1
    else if events[|events| - 1].action.OpenSession? then |events| - 1
    else OpenedAt(start, events[..|events| - 1])
  }

  /** The session a verdict is carried out on was opened after it exactly when one was opened in between at all. */
  lemma {:induction false} LaterSessionExactly(start: real, events: seq<Event>, j: nat)
    requires j < |events| && Run(start, events).session
    ensures OpenedAt(start, events) > j <==> exists i: nat :: j < i < |events| && events[i].action.OpenSession?
    decreases |events|
  {
    var front, n: nat := events[..|events| - 1], |events| - 1;
    if !events[n].action.OpenSession? {
      assert forall i: nat :: i < n ==> front[i] == events[i];
      if j < n {
        LaterSessionExactly(start, front, j);
      } else {
        OpenedBefore(start, front);
      }
    }
  }

  lemma {:induction false} OpenedBefore(start: real, events: seq<Event>)
    ensures OpenedAt(start, events) < |events|
    decreases |events|
  {
    if events != [] {
      OpenedBefore(start, events[..|events| - 1]);
    }
  }

  /**
   * A verdict at 600 s, a login at 601 s that marks its activity while the agent is still being stopped: the new
   * session is dropped a second later.
   */
  lemma FreshSessionDropped() returns (events: seq<Event>)
    ensures InOrder(0.0, events) && |events| == 8
    ensures events[2] == Event(600.0, WatchdogJudges) && events[7] == Event(602.0, Drops(true))
    ensures events[4] == Event(601.0, OpenSession) && events[5] == Event(601.0, MarkActivity)
    ensures Pending(0.0, events[..7], true, 2) && Run(0.0, events[..7]).session && !Run(0.0, events).session
    ensures !Due(Run(0.0, events[..7]), 602.0)
  {
    hide Run, InOrder, Pending;
    var s;
    events, s := [], Start(0.0);
    NothingRun(0.0);
    events, s := Extend(0.0, events, s, Event(0.0, SetAutoLock(Idle, Finite(10.0))));
    events, s := Extend(0.0, events, s, Event(0.0, OpenSession));
    var before := events;
    events, s := Extend(0.0, events, s, Event(600.0, WatchdogJudges));
    assert s.watchdog == Some(Taking);
    events, s := Extend(0.0, events, s, Event(600.0, Takes(true)));
    events, s := Extend(0.0, events, s, Event(601.0, OpenSession));
    events, s := Extend(0.0, events, s, Event(601.0, MarkActivity));
    events, s := Extend(0.0, events, s, Event(602.0, Wipes(true)));
    var dropping := events;
    var j := LockingMeansVerdict(0.0, dropping, true);
    OnlyJudge(0.0, dropping, j);
    events, s := Extend(0.0, events, s, Event(602.0, Drops(true)));
    assert events[..7] == dropping;
  }

  lemma OnlyJudge(start: real, events: seq<Event>, j: nat)
    requires Pending(start, events, true, j) && |events| == 7
    requires forall i :: 0 <= i < 7 && i != 2 ==> !events[i].action.WatchdogJudges?
    ensures j == 2
  {
  }

  // ------------------------------------------------------------ and never late

  /** The verdicts of one loop from event `n` on. */
  function Verdicts(start: real, events: seq<Event>, dog: bool, n: nat): seq<nat> {
    if |events| <= n then []
    else
      var front, last: nat := events[..|events| - 1], |events| - 1;
      Verdicts(start, front, dog, n) + (if Decides(Run(start, front), events[last].action, dog) then [last] else [])
  }

  lemma {:induction false} VerdictJudges(start: real, events: seq<Event>, dog: bool, n: nat, v: nat)
    requires v < |Verdicts(start, events, dog, n)|
    ensures n <= Verdicts(start, events, dog, n)[v] < |events|
    ensures Judges(start, events, dog, Verdicts(start, events, dog, n)[v])
    decreases |events|
  {
    var front := events[..|events| - 1];
    if v < |Verdicts(start, front, dog, n)| {
      VerdictJudges(start, front, dog, n, v);
      var j := Verdicts(start, front, dog, n)[v];
      assert front[..j] == events[..j] && front[j] == events[j];
    }
  }

  /** Moments no further apart than one period leave no gap of a period after a deadline they reach past. */
  lemma {:induction false} WithinOnePeriod(times: seq<real>, period: real, deadline: real) returns (i: nat)
    requires |times| > 1 && times[0] <= deadline <= times[|times| - 1]
    requires forall k :: 0 <= k < |times| - 1 ==> times[k] <= times[k + 1] <= times[k] + period
    ensures 0 < i < |times| && deadline <= times[i] <= deadline + period
    decreases |times|
  {
    var rest := times[1..];
    if rest[0] >= deadline {
      i := 1;
    } else {
      var j := WithinOnePeriod(rest, period, deadline);
      i := j + 1;
    }
  }

  function Moments(start: real, events: seq<Event>, dog: bool, n: nat, t: real): (times: seq<real>)
    ensures |times| == |Verdicts(start, events, dog, n)| + 1
  {
    var v := Verdicts(start, events, dog, n);
    [t] + seq(|v|, k requires 0 <= k < |v| => if v[k] < |events| then events[v[k]].at else t)
  }

  /**
   * From time `t` on, and counting verdicts from event `n` on, the loop decides at least once every period, and still
   * does so at `deadline`.
   */
  predicate Paced(start: real, events: seq<Event>, dog: bool, n: nat, t: real, period: real, deadline: real) {
    var times := Moments(start, events, dog, n, t);
    && |times| > 1 && times[|times| - 1] >= deadline
    && forall k :: 0 <= k < |times| - 1 ==> times[k] <= times[k + 1] <= times[k] + period
  }

  /** Of a loop that keeps its pace, one verdict falls within a period after any deadline. */
  lemma SomeVerdictInTime(start: real, events: seq<Event>, dog: bool, n: nat, t: real, period: real, deadline: real)
    returns (j: nat)
    requires Paced(start, events, dog, n, t, period, deadline) && t <= deadline
    ensures n <= j < |events| && Judges(start, events, dog, j) && deadline <= events[j].at <= deadline + period
  {
    var i := WithinOnePeriod(Moments(start, events, dog, n, t), period, deadline);
    VerdictJudges(start, events, dog, n, i - 1);
    j := Verdicts(start, events, dog, n)[i - 1];
  }

  /** From event `n` on every `set_auto_lock` asks for what is stored already. */
  predicate Settled(start: real, events: seq<Event>, n: nat)
    requires n <= |events|
  {
    var s := Run(start, events[..n]);
    forall r: nat :: n <= r < |events| && events[r].action.SetAutoLock? ==>
      var a := events[r].action;
      && StoredTrigger(a.trigger, a.minutes) == s.trigger
      && StoredMinutes(a.minutes) == s.minutes
  }

  lemma StepSets(s: State, e: Event)
    ensures var s' := Step(s, e);
      if e.action.SetAutoLock? then
        s'.trigger == StoredTrigger(e.action.trigger, e.action.minutes) && s'.minutes == StoredMinutes(e.action.minutes)
      else s'.trigger == s.trigger && s'.minutes == s.minutes
  {
    hide Due;
  }

  lemma {:induction false} SettingStays(start: real, events: seq<Event>, n: nat, j: nat)
    requires n <= j <= |events| && Settled(start, events, n)
    ensures var s, s' := Run(start, events[..n]), Run(start, events[..j]);
      s.trigger == s'.trigger && s.minutes == s'.minutes
    decreases j
  {
    if n < j {
      if events[j - 1].action.SetAutoLock? {
        SetAsBefore(start, events, n, j - 1);
      }
      hide *;
      SettingStays(start, events, n, j - 1);
      StepSets(Run(start, events[..j - 1]), events[j - 1]);
      assert events[..j] == events[..j - 1] + [events[j - 1]];
      RunMore(start, events[..j - 1], events[j - 1]);
    }
  }

  lemma SetAsBefore(start: real, events: seq<Event>, n: nat, r: nat)
    requires n <= r < |events| && Settled(start, events, n) && events[r].action.SetAutoLock?
    ensures var a, s := events[r].action, Run(start, events[..n]);
      StoredTrigger(a.trigger, a.minutes) == s.trigger && StoredMinutes(a.minutes) == s.minutes
  {
    hide Run, StoredTrigger, StoredMinutes;
  }

  lemma {:induction false} MarkStays(start: real, events: seq<Event>, n: nat, j: nat)
    requires n <= j <= |events| && forall r: nat :: n <= r < j ==> !events[r].action.MarkActivity?
    ensures LastMark(start, events[..j]) == LastMark(start, events[..n])
    decreases j
  {
    if n < j {
      MarkStays(start, events, n, j - 1);
      assert events[..j][..j - 1] == events[..j - 1];
    }
  }

  function Later(a: real, b: real): real {
    if a < b then b else a
  }

  /**
   * Idle: whatever was set and marked before event `n`, when from there on nothing is marked and the setting stays, a
   * loop that decides every period from time `t` on has a verdict to lock within one period after the window, or
   * after `t` if the window had passed by then.
   */
  lemma IdleLocksInTime(start: real, events: seq<Event>, dog: bool, n: nat, t: real, period: real) returns (j: nat)
    requires InOrder(start, events) && n <= |events| && Settled(start, events, n)
    requires forall r: nat :: n <= r < |events| ==> !events[r].action.MarkActivity?
    requires var s := Run(start, events[..n]); s.trigger.Idle? && Usable(s.minutes)
    requires Paced(start, events, dog, n, t, period, IdleDeadline(start, events, n, t))
    ensures n <= j < |events| && Judges(start, events, dog, j) && DueAt(start, events, j)
    ensures IdleDeadline(start, events, n, t) <= events[j].at <= IdleDeadline(start, events, n, t) + period
  {
    StoredSettingsAreSane(start, events[..n]);
    j := SomeVerdictInTime(start, events, dog, n, t, period, IdleDeadline(start, events, n, t));
    SettingStays(start, events, n, j);
    MarkStays(start, events, n, j);
    LastActivityIsLastMark(start, events[..j]);
  }

  function IdleDeadline(start: real, events: seq<Event>, n: nat, t: real): real
    requires n <= |events| && Usable(Run(start, events[..n]).minutes)
  {
    Later(t, LastMark(start, events[..n]) + Run(start, events[..n]).minutes.value * 60.0)
  }

  /**
   * Screen lock: when event `k` is the first sight of a locked screen and nothing resets the countdown after it, a loop
   * that decides every period from time `t` on, under a setting that stays from event `n` on, has a verdict to lock
   * within one period after that setting's window, or after `t` if the window had passed by then.
   */
  lemma ScreenLocksInTime(start: real, events: seq<Event>, dog: bool, k: nat, n: nat, t: real, period: real)
    returns (j: nat)
    requires StartsCountdown(start, events, k) && k < n <= |events| && Settled(start, events, n)
    requires var s := Run(start, events[..n]); s.trigger.ScreenLock? && Usable(s.minutes)
    requires Paced(start, events, dog, n, t, period, ScreenDeadline(start, events, k, n, t))
    ensures n <= j < |events| && Judges(start, events, dog, j) && DueAt(start, events, j)
    ensures ScreenDeadline(start, events, k, n, t) <= events[j].at <= ScreenDeadline(start, events, k, n, t) + period
  {
    j := SomeVerdictInTime(start, events, dog, n, t, period, ScreenDeadline(start, events, k, n, t));
    SettingStays(start, events, n, j);
    CountdownEarlier(start, events, j, k);
    FirstSightIsSince(start, events[..j], k);
  }

  function ScreenDeadline(start: real, events: seq<Event>, k: nat, n: nat, t: real): real
    requires k < n <= |events| && Usable(Run(start, events[..n]).minutes)
  {
    Later(t, events[k].at + Run(start, events[..n]).minutes.value * 60.0)
  }

  // ------------------------------------------------------------------ settings

  /** Whatever the renderer sends, what is stored is a finite window, and an idle window that is not zero. */
  lemma {:induction false} StoredSettingsAreSane(start: real, events: seq<Event>)
    ensures var s := Run(start, events);
      s.minutes.Finite? && s.minutes.value >= 0.0 && (s.trigger.Idle? ==> s.minutes.value > 0.0)
    decreases |events|
  {
    if events != [] {
      hide Step;
      StoredSettingsAreSane(start, events[..|events| - 1]);
      StepSets(Run(start, events[..|events| - 1]), events[|events| - 1]);
    }
  }

  function LastTime(start: real, events: seq<Event>): real {
    if events == [] then start else events[|events| - 1].at
  }

  /** The run can go on, without touching the setting, to a verdict to lock. */
  predicate CanLock(start: real, events: seq<Event>, more: seq<Event>) {
    && more != [] && InOrder(start, events + more)
    && (forall i :: 0 <= i < |more| ==> !more[i].action.SetAutoLock?)
    && Judges(start, events + more, true, |events + more| - 1) && DueAt(start, events + more, |events + more| - 1)
  }

  /** Until the screen is seen locked, from wherever the loops stand. */
  function Arming(now: real): (more: seq<Event>)
    ensures |more| == 11 && forall i :: 0 <= i < 11 ==> more[i].at == now
    ensures forall i :: 0 <= i < 11 ==> !more[i].action.SetAutoLock? && !more[i].action.MarkActivity?
  {
    LockSteps(false, now) + [Event(now, Observe(None)), Event(now, PollerJudges)] + LockSteps(false, now)
    + [Event(now, OpenSession), Event(now, Arm), Event(now, Observe(Some(true)))]
  }

  /** A session opens, the screen is seen locked, and the watchdog decides at `at`. */
  function LockScript(now: real, at: real): (more: seq<Event>)
    ensures |more| == 15 && more[14] == Event(at, WatchdogJudges)
    ensures more[..14] == Arming(now) + LockSteps(true, now)
    ensures forall i :: 0 <= i < 14 ==>
      more[i].at == now && !more[i].action.SetAutoLock? && !more[i].action.MarkActivity?
  {
    Arming(now) + LockSteps(true, now) + [Event(at, WatchdogJudges)]
  }

  lemma {:induction false} RunFromPlus(s: State, a: seq<Event>, b: seq<Event>)
    ensures RunFrom(s, a + b) == RunFrom(RunFrom(s, a), b)
    decreases |a|
  {
    if a == [] {
      assert a + b == b;
    } else {
      assert (a + b)[1..] == a[1..] + b;
      RunFromPlus(Step(s, a[0]), a[1..], b);
    }
  }

  lemma ArmingCounts(s: State, now: real)
    ensures var s' := RunFrom(s, Arming(now));
      && s'.trigger == s.trigger && s'.minutes == s.minutes && s'.lastActivity == s.lastActivity
      && (s.trigger.ScreenLock? ==> s'.since == if s.since.Some? then s.since else Some(now))
  {
    var clear := LockSteps(false, now);
    var middle := [Event(now, Observe(None)), Event(now, PollerJudges)];
    var s1 := RunFrom(s, clear);
    var s2 := RunFrom(s1, middle);
    var s3 := RunFrom(s2, clear);
    RunFromPlus(s, clear, middle);
    RunFromPlus(s, clear + middle, clear);
    RunFromPlus(s, clear + middle + clear, [Event(now, OpenSession), Event(now, Arm), Event(now, Observe(Some(true)))]);
    LockStepsDo(s, false, now);
    TwoSteps(s1, middle[0], middle[1]);
    LockStepsDo(s2, false, now);
    ThreeSteps(s3, Event(now, OpenSession), Event(now, Arm), Event(now, Observe(Some(true))));
    hide Step, RunFrom, LockSteps;
    RoundEnds(s1, now);
    ScreenSeen(s3, now);
  }

  lemma RoundEnds(s: State, now: real)
    requires LockAt(s, false).None?
    ensures var s' := Step(Step(s, Event(now, Observe(None))), Event(now, PollerJudges));
      && (s'.poller.Asleep? || s'.poller.Locking?)
      && s'.trigger == s.trigger && s'.minutes == s.minutes && s'.since == s.since
      && s'.lastActivity == s.lastActivity
  {
    hide Due;
  }

  lemma ScreenSeen(s: State, now: real)
    requires s.poller.Asleep?
    ensures
      var s' := Step(Step(Step(s, Event(now, OpenSession)), Event(now, Arm)), Event(now, Observe(Some(true))));
      && s'.trigger == s.trigger && s'.minutes == s.minutes && s'.lastActivity == s.lastActivity
      && (s.trigger.ScreenLock? ==> s'.since == if s.since.Some? then s.since else Some(now))
  {
    hide Due;
  }

  /** Where the script leaves the countdown just before its verdict. */
  lemma LockScriptCounts(s: State, now: real, at: real)
    ensures var s' := RunFrom(s, LockScript(now, at)[..14]);
      && s'.trigger == s.trigger && s'.minutes == s.minutes && s'.lastActivity == s.lastActivity && s'.watchdog.None?
      && (s.trigger.ScreenLock? ==> s'.since == if s.since.Some? then s.since else Some(now))
  {
    hide Step, RunFrom, Arming, LockSteps, LockScript;
    ArmingCounts(s, now);
    RunFromPlus(s, Arming(now), LockSteps(true, now));
    LockStepsDo(RunFrom(s, Arming(now)), true, now);
  }

  /** A session can be locked at all exactly under a trigger with a usable window. */
  lemma CanLockFrom(start: real, events: seq<Event>) returns (more: seq<Event>)
    requires InOrder(start, events)
    requires var s := Run(start, events); !s.trigger.Off? && Usable(s.minutes)
    ensures CanLock(start, events, more)
  {
    hide LockScript, Run, RunFrom, Step, LastTime;
    var s, now := Run(start, events), LastTime(start, events);
    StoredSettingsAreSane(start, events);
    NothingFromTheFuture(start, events);
    var due := now + s.minutes.value * 60.0;
    more := LockScript(now, due);
    assert (events + more)[..|events| + 14] == events + more[..14];
    NowAndLater(start, events, more, due);
    RunPlus(start, events, more[..14]);
    LockScriptCounts(s, now, due);
    assert Due(Run(start, events + more[..14]), due);
  }

  lemma NothingFromTheFuture(start: real, events: seq<Event>)
    requires InOrder(start, events)
    ensures var s, now := Run(start, events), LastTime(start, events);
      s.lastActivity <= now && (s.since.Some? ==> s.since.value <= now)
  {
    LastActivityIsLastMark(start, events);
    LastMarkIsLast(start, events);
    var k := SinceIsFirstSight(start, events);
  }

  lemma NowAndLater(start: real, events: seq<Event>, more: seq<Event>, at: real)
    requires InOrder(start, events) && |more| == 15 && more[14].at == at >= LastTime(start, events)
    requires forall i :: 0 <= i < 14 ==> more[i].at == LastTime(start, events)
    ensures InOrder(start, events + more)
  {
  }

  lemma CannotLock(start: real, events: seq<Event>, more: seq<Event>)
    requires var s := Run(start, events); s.trigger.Off? || !Usable(s.minutes)
    ensures !CanLock(start, events, more)
  {
    hide Run, Step;
    if CanLock(start, events, more) {
      var all := events + more;
      assert all[..|events|] == events;
      SettingStays(start, all, |events|, |all| - 1);
    }
  }

  /**
   * What a call of `set_auto_lock` amounts to. A window of more than seven days is stored as it came and then never
   * locks, the screen-lock trigger takes zero and garbage for "at once", and the idle trigger takes them for "off".
   */
  lemma SentSettingLocksExactly(
    start: real, events: seq<Event>, at: real, t: Trigger, m: Minutes)
    returns (more: seq<Event>)
    requires InOrder(start, events + [Event(at, SetAutoLock(t, m))])
    ensures var asked := events + [Event(at, SetAutoLock(t, m))];
      var given := m.Finite? && m.value > 0.0;
      var sane := if given then m.value <= 7.0 * 24.0 * 60.0 else t.ScreenLock?;
      && (!t.Off? && sane ==> CanLock(start, asked, more))
      && (t.Off? || !sane ==> forall any: seq<Event> :: !CanLock(start, asked, any))
      && Run(start, asked).minutes == (if given then m else Finite(0.0))
      && Run(start, asked).trigger == (if t.Idle? && !given then Off else t)
  {
    var asked := events + [Event(at, SetAutoLock(t, m))];
    var s := Run(start, asked);
    RunMore(start, events, Event(at, SetAutoLock(t, m)));
    hide Run, CanLock;
    more := [];
    if !s.trigger.Off? && Usable(s.minutes) {
      more := CanLockFrom(start, asked);
    } else {
      forall any: seq<Event> ensures !CanLock(start, asked, any) {
        CannotLock(start, asked, any);
      }
    }
  }

  // --------------------------------------------------------- the state, in place

  /** The fields of `AppState` the auto-lock reads and writes. */
  class Guard {
    var trigger: Trigger
    var minutes: Minutes
    var since: Option<real>
    var lastActivity: real
    var session: bool
    var agent: bool
    var pending: bool

    constructor (now: real)
      ensures Shows(Start(now))
    {
      trigger, minutes, since, lastActivity := Off, Finite(0.0), None, now;
      session, agent, pending := false, false, false;
    }

    ghost predicate Shows(s: State)
      reads this
    {
      && trigger == s.trigger && minutes == s.minutes && since == s.since
      && lastActivity == s.lastActivity && session == s.session && agent == s.agent && pending == s.pending
    }

    method Set(t: Trigger, m: Minutes, ghost s: State, ghost at: real)
      requires Shows(s)
      modifies this`trigger, this`minutes, this`since
      ensures Shows(Step(s, Event(at, SetAutoLock(t, m))))
    {
      var stored := if m.Finite? && m.value > 0.0 then m else Finite(0.0);
      var previous := trigger;
      trigger := if t.Idle? && stored.value <= 0.0 then Off else t;
      minutes := stored;
      if previous != trigger {
        since := None;
      }
    }

    /** The first section of a poller round: whether to probe at all. */
    method Wake(ghost s: State, ghost at: real) returns (armed: bool)
      requires Shows(s) && s.poller.Asleep?
      modifies this`since
      ensures Shows(Step(s, Event(at, Arm)))
      ensures armed <==> Step(s, Event(at, Arm)).poller.Probing?
    {
      armed := trigger.ScreenLock? && session;
      if !armed {
        since := None;
      }
    }

    method Take(locked: Option<bool>, now: real, ghost s: State)
      requires Shows(s) && s.poller.Probing?
      modifies this`since
      ensures Shows(Step(s, Event(now, Observe(locked))))
    {
      if locked == Some(true) {
        if since.None? {
          since := Some(now);
        }
      } else if locked == Some(false) {
        since := None;
      }
    }

    /** `due`, branch by branch. */
    method IsDue(now: real, ghost s: State) returns (due: bool)
      requires Shows(s)
      ensures due <==> Due(s, now)
    {
      if !minutes.Finite? || minutes.value < 0.0 || minutes.value > MAX_WINDOW_MINUTES {
        return false;
      }
      var window := minutes.value * 60.0;
      match trigger
      case Off => due := false;
      case Idle => due := minutes.value > 0.0 && Elapsed(now, lastActivity) >= window;
      case ScreenLock => due := since.Some? && Elapsed(now, since.value) >= window;
    }

    /** `lock_now`, of either loop, from end to end: reports whether there was a session to drop. */
    method LockNow(dog: bool, ghost s: State, ghost at: real) returns (dropped: bool)
      requires Shows(s) && LockAt(s, dog) == Some(Taking)
      modifies this`agent, this`pending, this`session
      ensures Shows(RunFrom(s, LockSteps(dog, at))) && LockAt(RunFrom(s, LockSteps(dog, at)), dog).None?
      ensures dropped == old(session) && !session && !agent && !pending
    {
      LockStepsDo(s, dog, at);
      if agent {
        agent := false;
      }
      pending := false;
      dropped := session;
      if session {
        session := false;
      }
    }

    /** `lock`, the user's: its three sections. */
    method Lock(ghost s: State, ghost at: real)
      requires Shows(s)
      modifies this`agent, this`session, this`pending
      ensures Shows(LockedByUser(s, at)) && !session && !agent && !pending
      ensures forall dog :: LockAt(LockedByUser(s, at), dog) == LockAt(s, dog)
    {
      if agent {
        agent := false;
      }
      session := false;
      pending := false;
    }

    /** A round of the five-second loop that nothing interrupts: all its sections in order. */
    method PollerRound(locked: Option<bool>, now: real, ghost s: State)
      requires Shows(s) && s.poller.Asleep?
      modifies this
      ensures Shows(PolledOnce(s, locked, now)) && PolledOnce(s, locked, now).poller.Asleep?
    {
      var armed := Wake(s, now);
      hide RunFrom, LockSteps;
      ghost var woken := Step(s, Event(now, Arm));
      ghost var seen := Step(woken, Event(now, Observe(locked)));
      ghost var judged := Step(seen, Event(now, PollerJudges));
      LockStepsDo(judged, false, now);
      if armed {
        Take(locked, now, woken);
        var due := IsDue(now, seen);
        if due {
          var dropped := LockNow(false, judged, now);
        }
      }
    }

    /** The same for the thirty-second loop. */
    method WatchdogRound(now: real, ghost s: State)
      requires Shows(s) && s.watchdog.None?
      modifies this`agent, this`pending, this`session
      ensures Shows(RunFrom(Step(s, Event(now, WatchdogJudges)), LockSteps(true, now)))
      ensures session <==> old(session) && !Due(s, now)
    {
      LockStepsDo(Step(s, Event(now, WatchdogJudges)), true, now);
      var due := IsDue(now, s);
      if due {
        var dropped := LockNow(true, Step(s, Event(now, WatchdogJudges)), now);
      }
    }
  }

  /** The sections of the user's lock. */
  function LockedByUser(s: State, at: real): State {
    Step(Step(Step(s, Event(at, StopAgent)), Event(at, CloseSession)), Event(at, ForgetSecondFactor))
  }

  /** The sections of one poller round. */
  function PolledOnce(s: State, locked: Option<bool>, now: real): State {
    var seen := Step(Step(s, Event(now, Arm)), Event(now, Observe(locked)));
    RunFrom(Step(seen, Event(now, PollerJudges)), LockSteps(false, now))
  }
}
