/**
 One entry of the TV table and the transitions of that entry alone: the
 idempotent lock/unlock command, the countdown, the automatic decision of one
 tick, the daily reset, and the effect of each external command on its TV.

 Every network call is a boolean: `online` is the reachability probe's answer
 and `ok` says whether the HTTP request to the TV went through.
 */
module Tv {
  import opened Clock

  datatype Option<T> = None | Some(value: T)

  /** A configured TV: its name, address, daily budget in minutes and bedtime. */
  datatype TvConfig = TvConfig(name: string, ip: string, dailyLimit: int, bedtime: HourMinute)

  /** The mutable part of a TV entry, together with its configuration. */
  datatype TvState = TvState(
    config: TvConfig,
    online: bool,
    locked: bool,
    remainingMinutes: real,
    manualOverride: bool)

  datatype Action = Lock | Unlock

  /** A lock or unlock that the monitor decided on, with the reason it logs. */
  datatype Command = Command(action: Action, reason: string)

  const BedtimeReason: string := "Bedtime"
  const LimitReason: string := "Time Limit Reached"
  const MorningReason: string := "Time Added / Morning"

  /** The countdown step of one tick, in minutes. */
  const TickMinutes: real := 0.5

  /** A freshly loaded entry: offline, unlocked, full budget, no override. */
  function InitialState(config: TvConfig): TvState
  {
    TvState(config, false, false, config.dailyLimit as real, false)
  }

  // ---------------------------------------------------------------------------
  // control_tv

  /** A request is sent only when it would change the TV's lock state. */
  predicate Needed(tv: TvState, action: Action)
  {
    (action == Lock && !tv.locked) || (action == Unlock && tv.locked)
  }

  /** The entry after control_tv: `locked` follows the action only when sent and delivered. */
  function Control(tv: TvState, action: Action, ok: bool): TvState
  {
    if Needed(tv, action) && ok then tv.(locked := action == Lock) else tv
  }

  /** Only `locked` can change, and only when the request was needed and delivered. */
  lemma ControlOnlyTouchesLocked(tv: TvState, action: Action, ok: bool)
    ensures Control(tv, action, ok) == tv.(locked := Control(tv, action, ok).locked)
    ensures Control(tv, action, ok).locked != tv.locked <==> Needed(tv, action) && ok
  {
  }

  /** A command that is not needed sends nothing and changes nothing. */
  lemma ControlIdempotent(tv: TvState, action: Action, ok: bool)
    requires !Needed(tv, action)
    ensures Control(tv, action, ok) == tv
  {
  }

  /** A delivered command leaves the TV in the requested state, whatever it was before. */
  lemma ControlSucceeds(tv: TvState, action: Action)
    ensures Control(tv, action, true).locked == (action == Lock)
    ensures !Needed(Control(tv, action, true), action)
  {
  }

  /** A failed command leaves the entry as it was. */
  lemma ControlFails(tv: TvState, action: Action)
    ensures Control(tv, action, false) == tv
  {
  }

  /** Issuing the same command twice is issuing it once, delivered if either attempt was. */
  lemma ControlTwice(tv: TvState, action: Action, ok1: bool, ok2: bool)
    ensures Control(Control(tv, action, ok1), action, ok2) == Control(tv, action, ok1 || ok2)
  {
  }

  // ---------------------------------------------------------------------------
  // One tick of monitor_loop for one TV

  /** Python's max(0, x). */
  function Max0(x: real): real
  {
    if x > 0.0 then x else 0.0
  }

  /** Record the probe, and spend half a minute of budget if the TV is on and unlocked. */
  function Countdown(tv: TvState, online: bool): TvState
  {
    var t := tv.(online := online);
    if online && !tv.locked then t.(remainingMinutes := Max0(tv.remainingMinutes - TickMinutes)) else t
  }

  /** The budget is spent. */
  predicate TimeUp(tv: TvState)
  {
    tv.remainingMinutes <= 0.0
  }

  /** The command one tick issues, if any: none while a manual override holds. */
  function Decide(tv: TvState, now: TimeOfDay): Option<Command>
  {
    var bedtime := IsBedtime(now, tv.config.bedtime);
    var timeUp := TimeUp(tv);
    if tv.manualOverride then None
    else if (timeUp || bedtime) && !tv.locked then
      Some(Command(Lock, if bedtime then BedtimeReason else LimitReason))
    else if !timeUp && !bedtime && tv.locked then
      Some(Command(Unlock, MorningReason))
    else None
  }

  /** The entry after one tick and the command that tick tried to send. */
  datatype Step = Step(tv: TvState, issued: Option<Command>)

  function TickTv(tv: TvState, now: TimeOfDay, online: bool, ok: bool): Step
  {
    var counted := Countdown(tv, online);
    var issued := Decide(counted, now);
    Step(if issued.Some? then Control(counted, issued.value.action, ok) else counted, issued)
  }

  /** The countdown: half a minute while on and unlocked, floored at zero; otherwise no change. */
  lemma CountdownSpendsHalfMinute(tv: TvState, online: bool)
    ensures var c := Countdown(tv, online);
      && c == tv.(online := online, remainingMinutes := c.remainingMinutes)
      && (online && !tv.locked && tv.remainingMinutes >= TickMinutes ==> c.remainingMinutes == tv.remainingMinutes - TickMinutes)
      && (online && !tv.locked && tv.remainingMinutes < TickMinutes ==> c.remainingMinutes == 0.0)
      && (!online || tv.locked ==> c.remainingMinutes == tv.remainingMinutes)
  {
  }

  /** A tick never raises a non-negative budget and never makes it negative. */
  lemma CountdownBounded(tv: TvState, online: bool)
    requires tv.remainingMinutes >= 0.0
    ensures 0.0 <= Countdown(tv, online).remainingMinutes <= tv.remainingMinutes
  {
  }

  /** While a manual override holds, the tick issues nothing. */
  lemma OverrideIssuesNothing(tv: TvState, now: TimeOfDay)
    requires tv.manualOverride
    ensures Decide(tv, now) == None
  {
  }

  /**
   Without an override, a lock is issued exactly when the budget is spent or it
   is bedtime and the TV is unlocked, and an unlock exactly when neither holds
   and the TV is locked; the lock reason is "Bedtime" exactly at bedtime.
   */
  lemma AutomaticDecision(tv: TvState, now: TimeOfDay)
    requires !tv.manualOverride
    ensures var d := Decide(tv, now);
      var bedtime := IsBedtime(now, tv.config.bedtime);
      && (d.Some? && d.value.action == Lock <==> (TimeUp(tv) || bedtime) && !tv.locked)
      && (d.Some? && d.value.action == Unlock <==> !TimeUp(tv) && !bedtime && tv.locked)
      && (d.Some? && d.value.action == Lock ==> (d.value.reason == BedtimeReason <==> bedtime))
  {
  }

  /** An issued command is always one that control_tv will actually send. */
  lemma DecisionIsNeeded(tv: TvState, now: TimeOfDay)
    requires Decide(tv, now).Some?
    ensures Needed(tv, Decide(tv, now).value.action)
  {
  }

  /**
   One tick without an override reconciles: once the request is delivered, the
   TV is locked exactly when its budget is spent or it is bedtime. A failed
   request leaves `locked` as it was.
   */
  lemma TickReconciles(tv: TvState, now: TimeOfDay, online: bool, ok: bool)
    requires !tv.manualOverride
    ensures var s := TickTv(tv, now, online, ok);
      var counted := Countdown(tv, online);
      && (ok ==> s.tv.locked == (TimeUp(counted) || IsBedtime(now, tv.config.bedtime)))
      && (!ok ==> s.tv.locked == tv.locked)
  {
  }

  /** Under a manual override a tick only counts down: lock state and override stay. */
  lemma TickUnderOverride(tv: TvState, now: TimeOfDay, online: bool, ok: bool)
    requires tv.manualOverride
    ensures TickTv(tv, now, online, ok) == Step(Countdown(tv, online), None)
  {
  }

  /** A tick keeps the configuration and the override, records the probe and counts down. */
  lemma TickKeeps(tv: TvState, now: TimeOfDay, online: bool, ok: bool)
    ensures var s := TickTv(tv, now, online, ok).tv;
      && s.config == tv.config && s.manualOverride == tv.manualOverride && s.online == online
      && s.remainingMinutes == Countdown(tv, online).remainingMinutes
  {
  }

  /** The lock state the automatic rules aim for: locked when the budget is spent or it is bedtime. */
  predicate AutoLocked(tv: TvState, now: TimeOfDay)
  {
    TimeUp(tv) || IsBedtime(now, tv.config.bedtime)
  }

  /**
   As written, an override outlives the moment the lock state agrees with the
   automatic rules: a TV switched off by MQTT "OFF" with a minute of budget
   left keeps its override through a noon tick at which being unlocked is
   what the rules want, and at the next tick, with the budget spent, it is
   neither locked nor asked to lock.
   */
  lemma OffOverrideOutlastsBudget()
    ensures var tv := MqttTv(InitialState(TvConfig("tv", "10.0.0.2", 1, HourMinute(21, 0))), OffPayload, true);
      var noon := AsTime(HourMinute(12, 0));
      var first := TickTv(tv, noon, true, true);
      var second := TickTv(first.tv, noon, true, true);
      && tv.manualOverride && !tv.locked
      && first.issued == None && !first.tv.locked && first.tv.locked == AutoLocked(first.tv, noon)
      && first.tv.manualOverride
      && AutoLocked(second.tv, noon) && !second.tv.locked && second.issued == None
  {
  }

  /**
   The tick the override was meant to follow: the override lapses as soon as
   the lock state agrees with the automatic rules, after the countdown and
   before the decision.
   */
  function TickTvResuming(tv: TvState, now: TimeOfDay, online: bool, ok: bool): Step
  {
    var counted := Countdown(tv, online);
    var settled := if counted.manualOverride && counted.locked == AutoLocked(counted, now)
      then counted.(manualOverride := false) else counted;
    var issued := Decide(settled, now);
    Step(if issued.Some? then Control(settled, issued.value.action, ok) else settled, issued)
  }

  /** Without an override the intended tick is the tick as written. */
  lemma ResumingTickWithoutOverride(tv: TvState, now: TimeOfDay, online: bool, ok: bool)
    requires !tv.manualOverride
    ensures TickTvResuming(tv, now, online, ok) == TickTv(tv, now, online, ok)
  {
  }

  /**
   With the intended tick an override ends exactly when the lock state agrees
   with the automatic rules, issuing nothing and keeping `locked`; from then
   on a delivered tick locks the TV exactly when its budget is spent or it is
   bedtime.
   */
  lemma ResumedOverrideLocksAgain(tv: TvState, now1: TimeOfDay, online1: bool, ok1: bool,
                                  now2: TimeOfDay, online2: bool)
    requires tv.manualOverride
    ensures var c := Countdown(tv, online1);
      var first := TickTvResuming(tv, now1, online1, ok1);
      && first.issued == None && first.tv.locked == tv.locked
      && (!first.tv.manualOverride <==> tv.locked == AutoLocked(c, now1))
    ensures var first := TickTvResuming(tv, now1, online1, ok1).tv;
      !first.manualOverride ==>
        TickTvResuming(first, now2, online2, true).tv.locked == AutoLocked(Countdown(first, online2), now2)
  {
    var first := TickTvResuming(tv, now1, online1, ok1).tv;
    if !first.manualOverride {
      ResumingTickWithoutOverride(first, now2, online2, true);
      TickReconciles(first, now2, online2, true);
    }
  }

  /** With the intended tick the scenario of `OffOverrideOutlastsBudget` ends locked for the time limit. */
  lemma ResumingOffOverrideLocksAtTimeUp()
    ensures var tv := MqttTv(InitialState(TvConfig("tv", "10.0.0.2", 1, HourMinute(21, 0))), OffPayload, true);
      var noon := AsTime(HourMinute(12, 0));
      var first := TickTvResuming(tv, noon, true, true);
      var second := TickTvResuming(first.tv, noon, true, true);
      && !first.tv.manualOverride && !first.tv.locked
      && second.issued == Some(Command(Lock, LimitReason)) && second.tv.locked
  {
  }

  // ---------------------------------------------------------------------------
  // Daily reset

  /** The new-day reset of one entry: full budget, override cleared. */
  function ResetTv(tv: TvState): TvState
  {
    tv.(remainingMinutes := tv.config.dailyLimit as real, manualOverride := false)
  }

  // ---------------------------------------------------------------------------
  // External commands on one TV

  /** add_time: add the minutes, clear the override, and unlock if locked. */
  function AddTimeTv(tv: TvState, minutes: int, ok: bool): TvState
  {
    var t := tv.(remainingMinutes := tv.remainingMinutes + minutes as real, manualOverride := false);
    if t.locked then Control(t, Unlock, ok) else t
  }

  /** The budget grows by exactly the minutes, the override is cleared, a delivered unlock unlocks. */
  lemma AddTimeEffect(tv: TvState, minutes: int, ok: bool)
    ensures var t := AddTimeTv(tv, minutes, ok);
      && t.remainingMinutes == tv.remainingMinutes + minutes as real
      && !t.manualOverride
      && t.config == tv.config && t.online == tv.online
      && t.locked == (tv.locked && !ok)
  {
  }

  /** The direction of a toggle: unlock a locked TV, lock an unlocked one. */
  function ToggleAction(tv: TvState): Action
  {
    if tv.locked then Unlock else Lock
  }

  /** toggle_lock: send the opposite command, then set the override whatever happened. */
  function ToggleLockTv(tv: TvState, ok: bool): TvState
  {
    Control(tv, ToggleAction(tv), ok).(manualOverride := true)
  }

  /** The later toggle: flip `locked` and set the override only when the request went through. */
  function ToggleTv(tv: TvState, ok: bool): TvState
  {
    if ok then tv.(locked := !tv.locked, manualOverride := true) else tv
  }

  /** toggle_lock flips a delivered toggle and keeps the lock on failure; it always sets the override. */
  lemma ToggleLockEffect(tv: TvState, ok: bool)
    ensures var t := ToggleLockTv(tv, ok);
      && t.manualOverride
      && t.locked == (tv.locked != ok)
      && t == tv.(locked := t.locked, manualOverride := true)
  {
  }

  /** Both toggles agree when the request is delivered. */
  lemma TogglesAgreeWhenDelivered(tv: TvState)
    ensures ToggleTv(tv, true) == ToggleLockTv(tv, true)
    ensures ToggleTv(tv, true).locked == !tv.locked && ToggleTv(tv, true).manualOverride
  {
  }

  /** On a failed request the later toggle changes nothing, toggle_lock still sets the override. */
  lemma TogglesDifferWhenFailed(tv: TvState)
    ensures ToggleTv(tv, false) == tv
    ensures ToggleLockTv(tv, false) == tv.(manualOverride := true)
  {
  }

  const OnPayload: string := "ON"
  const OffPayload: string := "OFF"

  /** on_message for a TV whose topic matched: "ON" locks, "OFF" unlocks, both set the override. */
  function MqttTv(tv: TvState, payload: string, ok: bool): TvState
  {
    if payload == OnPayload then Control(tv, Lock, ok).(manualOverride := true)
    else if payload == OffPayload then Control(tv, Unlock, ok).(manualOverride := true)
    else tv
  }

  lemma MqttEffect(tv: TvState, payload: string, ok: bool)
    ensures var t := MqttTv(tv, payload, ok);
      && (payload == OnPayload ==> t.manualOverride && t.locked == (tv.locked || ok))
      && (payload == OffPayload ==> t.manualOverride && t.locked == (tv.locked && !ok))
      && (payload != OnPayload && payload != OffPayload ==> t == tv)
      && t == tv.(locked := t.locked, manualOverride := t.manualOverride)
  {
  }
}
