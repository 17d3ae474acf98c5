/**
 The whole TV table as a value: its loading from the configured list, one
 monitor tick over all TVs (the new-day reset followed by each TV's step), the
 external commands, and runs of any mixture of those events.

 These functions are the specification that the in-place methods of
 `Manager.KidsLock` are proved against; the lemmas here state what the
 manager promises across TVs and across many steps.
 */
module Registry {
  import opened Clock
  import opened Topics
  import opened Tv

  type Table = map<string, TvState>

  /** The table and the day of month the monitor saw last. */
  datatype Sys = Sys(tvStates: Table, lastDay: nat)

  /** What one tick reads from outside: the date's day, the time, the pings and the HTTP outcomes. */
  datatype TickInput = TickInput(
    day: nat,
    now: TimeOfDay,
    reachable: string -> bool,
    delivered: string -> bool)

  // ---------------------------------------------------------------------------
  // Loading

  /** The table built from the configured TVs in order; a later TV with the same name replaces an earlier one. */
  function Initial(tvs: seq<TvConfig>): Table
  {
    if tvs == [] then map[]
    else Initial(tvs[..|tvs| - 1])[tvs[|tvs| - 1].name := InitialState(tvs[|tvs| - 1])]
  }

  /**
   Every configured name has an entry and nothing else does; each entry is the
   fresh state of the LAST configuration carrying its name.
   */
  lemma {:induction false} InitialEntries(tvs: seq<TvConfig>)
    ensures Initial(tvs).Keys == set i | 0 <= i < |tvs| :: tvs[i].name
    ensures forall n :: n in Initial(tvs) ==>
      exists i :: (0 <= i < |tvs| && tvs[i].name == n && Initial(tvs)[n] == InitialState(tvs[i]) &&
        forall j :: i < j < |tvs| ==> tvs[j].name != n)
    ensures forall n :: n in Initial(tvs) ==>
      var t := Initial(tvs)[n];
      && t.config.name == n && !t.online && !t.locked && !t.manualOverride
      && t.remainingMinutes == t.config.dailyLimit as real
    decreases |tvs|
  {
    if tvs != [] {
      var prefix, last := tvs[..|tvs| - 1], tvs[|tvs| - 1];
      InitialEntries(prefix);
      assert forall i :: 0 <= i < |prefix| ==> prefix[i] == tvs[i];
      var keys := set i | 0 <= i < |tvs| :: tvs[i].name;
      forall n | n in keys ensures n in Initial(tvs) {
        var i :| 0 <= i < |tvs| && tvs[i].name == n;
        if i < |prefix| {
          assert prefix[i].name == n;
        }
      }
      forall n | n in Initial(tvs)
        ensures exists i :: (0 <= i < |tvs| && tvs[i].name == n && Initial(tvs)[n] == InitialState(tvs[i]) &&
          forall j :: i < j < |tvs| ==> tvs[j].name != n)
      {
        if n == last.name {
          assert tvs[|tvs| - 1].name == n;
        } else {
          var i :| 0 <= i < |prefix| && prefix[i].name == n && Initial(prefix)[n] == InitialState(prefix[i]) &&
            forall j :: i < j < |prefix| ==> prefix[j].name != n;
          assert tvs[i].name == n;
        }
      }
    }
  }

  // ---------------------------------------------------------------------------
  // monitor_loop: one iteration

  /** The new-day reset of every TV. */
  function Rollover(states: Table): Table
  {
    map n | n in states :: ResetTv(states[n])
  }

  /** The table a tick works on: reset when the day of month differs from the last one seen. */
  function Rolled(sys: Sys, day: nat): Table
  {
    if day != sys.lastDay then Rollover(sys.tvStates) else sys.tvStates
  }

  /** Every TV after its step of the tick. */
  function Ticked(states: Table, now: TimeOfDay, reachable: string -> bool, delivered: string -> bool): Table
  {
    map n | n in states :: TickTv(states[n], now, reachable(n), delivered(n)).tv
  }

  /** The commands the tick issued, by TV. */
  function IssuedBy(states: Table, now: TimeOfDay, reachable: string -> bool, delivered: string -> bool): map<string, Command>
  {
    map n | n in states && TickTv(states[n], now, reachable(n), delivered(n)).issued.Some? ::
      TickTv(states[n], now, reachable(n), delivered(n)).issued.value
  }

  /** The system after one iteration of the monitor loop. */
  function Tick(sys: Sys, input: TickInput): Sys
  {
    Sys(Ticked(Rolled(sys, input.day), input.now, input.reachable, input.delivered), input.day)
  }

  /** The commands one iteration of the monitor loop issued. */
  function TickIssued(sys: Sys, input: TickInput): map<string, Command>
  {
    IssuedBy(Rolled(sys, input.day), input.now, input.reachable, input.delivered)
  }

  /**
   On a new day every TV gets its full budget back and loses its override, and
   nothing else changes; on the same day the reset does nothing.
   */
  lemma RolloverRestoresLimits(sys: Sys, day: nat)
    ensures Rolled(sys, day).Keys == sys.tvStates.Keys
    ensures day != sys.lastDay ==> forall n :: n in sys.tvStates ==>
      var t := Rolled(sys, day)[n];
      && t.remainingMinutes == t.config.dailyLimit as real
      && !t.manualOverride
      && t == sys.tvStates[n].(remainingMinutes := t.remainingMinutes, manualOverride := false)
    ensures day == sys.lastDay ==> Rolled(sys, day) == sys.tvStates
  {
  }

  /** A tick keeps the set of TVs and their configuration, and remembers the day it saw. */
  lemma TickKeepsRegistry(sys: Sys, input: TickInput)
    ensures Tick(sys, input).tvStates.Keys == sys.tvStates.Keys
    ensures forall n :: n in sys.tvStates ==> Tick(sys, input).tvStates[n].config == sys.tvStates[n].config
    ensures Tick(sys, input).lastDay == input.day
    ensures TickIssued(sys, input).Keys <= sys.tvStates.Keys
  {
  }

  /**
   After the first tick of a new day no TV has an override, and each one's
   budget is its daily limit less at most the one half-minute of this tick.
   */
  lemma NewDayTick(sys: Sys, input: TickInput)
    requires input.day != sys.lastDay
    ensures forall n :: n in sys.tvStates ==>
      var t := Tick(sys, input).tvStates[n];
      var limit := sys.tvStates[n].config.dailyLimit as real;
      && !t.manualOverride
      && (t.remainingMinutes == limit || t.remainingMinutes == Max0(limit - TickMinutes))
  {
    forall n | n in sys.tvStates
      ensures var t := Tick(sys, input).tvStates[n];
        var limit := sys.tvStates[n].config.dailyLimit as real;
        && !t.manualOverride
        && (t.remainingMinutes == limit || t.remainingMinutes == Max0(limit - TickMinutes))
    {
      var r := Rolled(sys, input.day)[n];
      TickKeeps(r, input.now, input.reachable(n), input.delivered(n));
      CountdownSpendsHalfMinute(r, input.reachable(n));
    }
  }

  /**
   A tick issues a command for a TV exactly when that TV's own decision calls
   for one, and on the same day never for a TV under a manual override.
   */
  lemma TickIssuesByDecision(sys: Sys, input: TickInput, name: string)
    requires name in sys.tvStates
    ensures var r := Rolled(sys, input.day)[name];
      var d := Decide(Countdown(r, input.reachable(name)), input.now);
      && (name in TickIssued(sys, input) <==> d.Some?)
      && (d.Some? ==> TickIssued(sys, input)[name] == d.value)
    ensures input.day == sys.lastDay && sys.tvStates[name].manualOverride ==> name !in TickIssued(sys, input)
  {
  }

  /** A tick at bedtime, with the request delivered and no override, leaves the TV locked. */
  lemma BedtimeTickLocks(sys: Sys, input: TickInput, name: string)
    requires name in sys.tvStates
    requires !Rolled(sys, input.day)[name].manualOverride
    requires IsBedtime(input.now, sys.tvStates[name].config.bedtime)
    requires input.delivered(name)
    ensures Tick(sys, input).tvStates[name].locked
    ensures name in TickIssued(sys, input) || sys.tvStates[name].locked
  {
    var r := Rolled(sys, input.day)[name];
    TickReconciles(r, input.now, input.reachable(name), true);
  }

  // ---------------------------------------------------------------------------
  // External commands

  /** add_time on the table; an unknown name changes nothing. */
  function AddTime(states: Table, name: string, minutes: int, ok: bool): Table
  {
    if name in states then states[name := AddTimeTv(states[name], minutes, ok)] else states
  }

  /** toggle_lock on the table; an unknown name changes nothing. */
  function ToggleLock(states: Table, name: string, ok: bool): Table
  {
    if name in states then states[name := ToggleLockTv(states[name], ok)] else states
  }

  /** The later toggle on the table; an unknown name changes nothing. */
  function Toggle(states: Table, name: string, ok: bool): Table
  {
    if name in states then states[name := ToggleTv(states[name], ok)] else states
  }

  /** on_message: every TV whose command topic is the message's topic handles the payload. */
  function OnMessage(states: Table, topic: string, payload: string, delivered: string -> bool): Table
  {
    map n | n in states :: if topic == SetTopic(n) then MqttTv(states[n], payload, delivered(n)) else states[n]
  }

  /** Each dashboard command touches only the named TV, and nothing at all for an unknown name. */
  lemma CommandsAreLocal(states: Table, name: string, minutes: int, ok: bool)
    ensures AddTime(states, name, minutes, ok).Keys == states.Keys
    ensures ToggleLock(states, name, ok).Keys == states.Keys
    ensures Toggle(states, name, ok).Keys == states.Keys
    ensures forall m :: m in states && m != name ==>
      && AddTime(states, name, minutes, ok)[m] == states[m]
      && ToggleLock(states, name, ok)[m] == states[m]
      && Toggle(states, name, ok)[m] == states[m]
    ensures name !in states ==>
      && AddTime(states, name, minutes, ok) == states
      && ToggleLock(states, name, ok) == states
      && Toggle(states, name, ok) == states
  {
  }

  /**
   A message on a TV's command topic with "ON" or "OFF" sets that TV's override
   and locks or unlocks it if delivered; a TV on another topic, or any other
   payload, is left alone.
   */
  lemma OnMessageEffect(states: Table, topic: string, payload: string, delivered: string -> bool)
    ensures OnMessage(states, topic, payload, delivered).Keys == states.Keys
    ensures forall n :: n in states ==>
      var t := OnMessage(states, topic, payload, delivered)[n];
      if topic == SetTopic(n) && (payload == OnPayload || payload == OffPayload) then
        t.manualOverride && t.locked == (if delivered(n) then payload == OnPayload else states[n].locked)
      else t == states[n]
  {
    forall n | n in states {
      MqttEffect(states[n], payload, delivered(n));
    }
  }

  /** A message meant for one TV reaches every TV with the same slug. */
  lemma OnMessageReachesSameSlug(states: Table, a: string, b: string, payload: string, delivered: string -> bool)
    requires a in states && b in states && Slug(a) == Slug(b)
    requires payload == OnPayload || payload == OffPayload
    ensures OnMessage(states, SetTopic(a), payload, delivered)[a].manualOverride
    ensures OnMessage(states, SetTopic(a), payload, delivered)[b].manualOverride
  {
    SetTopicMatchesSlug(a, b);
  }

  /**
   add_time unlocks even at bedtime, but with the override cleared the next
   tick on the same day locks the TV again, for reason "Bedtime".
   */
  lemma AddTimeAtBedtimeIsUndone(sys: Sys, name: string, minutes: int, ok: bool, input: TickInput)
    requires name in sys.tvStates
    requires input.day == sys.lastDay
    requires IsBedtime(input.now, sys.tvStates[name].config.bedtime)
    requires input.delivered(name)
    ensures var after := Sys(AddTime(sys.tvStates, name, minutes, ok), sys.lastDay);
      && (ok ==> !after.tvStates[name].locked)
      && Tick(after, input).tvStates[name].locked
      && (ok ==> TickIssued(after, input)[name] == Command(Lock, BedtimeReason))
  {
    var after := Sys(AddTime(sys.tvStates, name, minutes, ok), sys.lastDay);
    AddTimeEffect(sys.tvStates[name], minutes, ok);
    BedtimeTickLocks(after, input, name);
    var c := Countdown(after.tvStates[name], input.reachable(name));
    AutomaticDecision(c, input.now);
  }

  // ---------------------------------------------------------------------------
  // The failed toggle of toggle_lock and the corrected toggle

  /**
   toggle_lock as written: a failed request still sets the override, so an
   unlocked TV stays unlocked through bedtime for the rest of the day, and no
   lock is even attempted.
   */
  lemma FailedToggleLockSuspendsBedtime(sys: Sys, name: string, input: TickInput)
    requires name in sys.tvStates && !sys.tvStates[name].locked
    requires input.day == sys.lastDay
    requires IsBedtime(input.now, sys.tvStates[name].config.bedtime)
    ensures var after := Sys(ToggleLock(sys.tvStates, name, false), sys.lastDay);
      && !Tick(after, input).tvStates[name].locked
      && name !in TickIssued(after, input)
  {
    var after := Sys(ToggleLock(sys.tvStates, name, false), sys.lastDay);
    TickUnderOverride(after.tvStates[name], input.now, input.reachable(name), input.delivered(name));
  }

  /**
   The corrected toggle: a failed request leaves the override unset, so the
   next bedtime tick locks a TV that has no override.
   */
  lemma FailedToggleKeepsBedtime(sys: Sys, name: string, input: TickInput)
    requires name in sys.tvStates && !sys.tvStates[name].manualOverride
    requires input.day == sys.lastDay
    requires IsBedtime(input.now, sys.tvStates[name].config.bedtime)
    requires input.delivered(name)
    ensures var after := Sys(Toggle(sys.tvStates, name, false), sys.lastDay);
      && Tick(after, input).tvStates[name].locked
      && (!sys.tvStates[name].locked ==> TickIssued(after, input)[name] == Command(Lock, BedtimeReason))
  {
    var after := Sys(Toggle(sys.tvStates, name, false), sys.lastDay);
    assert after == sys;
    BedtimeTickLocks(sys, input, name);
    AutomaticDecision(Countdown(sys.tvStates[name], input.reachable(name)), input.now);
  }

  /** With the corrected toggle the override is set only together with a change of `locked`. */
  lemma ToggleOverrideMeansChange(states: Table, name: string, ok: bool)
    requires name in states && !states[name].manualOverride
    ensures Toggle(states, name, ok)[name].manualOverride <==> Toggle(states, name, ok)[name].locked != states[name].locked
  {
  }

  // ---------------------------------------------------------------------------
  // Runs of events

  datatype Event =
    | TickEvent(input: TickInput)
    | AddTimeEvent(name: string, minutes: int, ok: bool)
    | ToggleLockEvent(name: string, ok: bool)
    | MqttEvent(topic: string, payload: string, delivered: string -> bool)
    | ToggleEvent(name: string, ok: bool)

  function Apply(sys: Sys, e: Event): Sys
  {
    match e
    case TickEvent(input) => Tick(sys, input)
    case AddTimeEvent(name, minutes, ok) => sys.(tvStates := AddTime(sys.tvStates, name, minutes, ok))
    case ToggleLockEvent(name, ok) => sys.(tvStates := ToggleLock(sys.tvStates, name, ok))
    case MqttEvent(topic, payload, delivered) => sys.(tvStates := OnMessage(sys.tvStates, topic, payload, delivered))
    case ToggleEvent(name, ok) => sys.(tvStates := Toggle(sys.tvStates, name, ok))
  }

  /** The events applied one after another. */
  function Run(sys: Sys, events: seq<Event>): Sys
    decreases |events|
  {
    if events == [] then sys else Run(Apply(sys, events[0]), events[1..])
  }

  /** No TV has a negative budget, nor a negative daily limit to be reset to. */
  ghost predicate BudgetsNonNegative(states: Table)
  {
    forall n :: n in states ==> states[n].remainingMinutes >= 0.0 && states[n].config.dailyLimit >= 0
  }

  /** Time added through the dashboard is never negative in these events. */
  ghost predicate AddsNonNegative(events: seq<Event>)
  {
    forall k :: 0 <= k < |events| && events[k].AddTimeEvent? ==> events[k].minutes >= 0
  }

  /** Each event keeps budgets non-negative, provided it adds no negative time. */
  lemma ApplyKeepsBudgets(sys: Sys, e: Event)
    requires BudgetsNonNegative(sys.tvStates)
    requires e.AddTimeEvent? ==> e.minutes >= 0
    ensures BudgetsNonNegative(Apply(sys, e).tvStates)
  {
    match e
    case TickEvent(input) =>
      forall n | n in sys.tvStates
        ensures Tick(sys, input).tvStates[n].remainingMinutes >= 0.0
      {
        var r := Rolled(sys, input.day)[n];
        CountdownBounded(r, input.reachable(n));
        TickKeeps(r, input.now, input.reachable(n), input.delivered(n));
      }
    case AddTimeEvent(name, minutes, ok) =>
      if name in sys.tvStates {
        AddTimeEffect(sys.tvStates[name], minutes, ok);
      }
    case ToggleLockEvent(name, ok) =>
    case MqttEvent(topic, payload, delivered) =>
      forall n | n in sys.tvStates {
        MqttEffect(sys.tvStates[n], payload, delivered(n));
      }
    case ToggleEvent(name, ok) =>
  }

  /**
   Any run of ticks and commands keeps every budget non-negative, as long as
   the daily limits are non-negative and no negative time is added.
   */
  lemma {:induction false} RunKeepsBudgets(sys: Sys, events: seq<Event>)
    requires BudgetsNonNegative(sys.tvStates)
    requires AddsNonNegative(events)
    ensures BudgetsNonNegative(Run(sys, events).tvStates)
    decreases |events|
  {
    if events != [] {
      ApplyKeepsBudgets(sys, events[0]);
      assert AddsNonNegative(events[1..]) by {
        forall k | 0 <= k < |events[1..]| && events[1..][k].AddTimeEvent?
          ensures events[1..][k].minutes >= 0
        {
          assert events[1..][k] == events[k + 1];
        }
      }
      RunKeepsBudgets(Apply(sys, events[0]), events[1..]);
    }
  }

  /** Adding negative time can leave a budget negative. */
  lemma NegativeAddTimeBreaksBudget(config: TvConfig)
    requires config.dailyLimit == 0
    ensures var states := map[config.name := InitialState(config)];
      BudgetsNonNegative(states) && !BudgetsNonNegative(AddTime(states, config.name, -1, true))
  {
    var states := map[config.name := InitialState(config)];
    assert AddTime(states, config.name, -1, true)[config.name].remainingMinutes == -1.0;
  }

  /** No event adds or removes a TV or changes its configuration. */
  lemma {:induction false} RunKeepsRegistry(sys: Sys, events: seq<Event>)
    ensures Run(sys, events).tvStates.Keys == sys.tvStates.Keys
    ensures forall n :: n in sys.tvStates ==> Run(sys, events).tvStates[n].config == sys.tvStates[n].config
    decreases |events|
  {
    if events != [] {
      var next := Apply(sys, events[0]);
      match events[0] {
        case TickEvent(input) => TickKeepsRegistry(sys, input);
        case AddTimeEvent(name, minutes, ok) => AddTimeKeepsRegistry(sys.tvStates, name, minutes, ok);
        case ToggleLockEvent(name, ok) =>
        case MqttEvent(topic, payload, delivered) =>
          forall n | n in sys.tvStates ensures next.tvStates[n].config == sys.tvStates[n].config {
            MqttEffect(sys.tvStates[n], payload, delivered(n));
          }
        case ToggleEvent(name, ok) =>
      }
      RunKeepsRegistry(next, events[1..]);
    }
  }

  /** add_time keeps the set of TVs and their configuration. */
  lemma AddTimeKeepsRegistry(states: Table, name: string, minutes: int, ok: bool)
    ensures AddTime(states, name, minutes, ok).Keys == states.Keys
    ensures forall n :: n in states ==> AddTime(states, name, minutes, ok)[n].config == states[n].config
  {
    if name in states {
      AddTimeEffect(states[name], minutes, ok);
    }
  }

  /** Ticks on the day already seen, one after another. */
  function SameDayTicks(sys: Sys, inputs: seq<TickInput>): Sys
    decreases |inputs|
  {
    if inputs == [] then sys else SameDayTicks(Tick(sys, inputs[0]), inputs[1..])
  }

  /**
   A manual override wins over the automatic rules for the rest of the day:
   through any number of ticks on the same day the TV keeps its lock state and
   its override, whatever its budget and the time.
   */
  lemma {:induction false} OverrideHoldsAllDay(sys: Sys, name: string, inputs: seq<TickInput>)
    requires name in sys.tvStates && sys.tvStates[name].manualOverride
    requires forall k :: 0 <= k < |inputs| ==> inputs[k].day == sys.lastDay
    ensures var s := SameDayTicks(sys, inputs);
      && s.lastDay == sys.lastDay
      && name in s.tvStates
      && s.tvStates[name].manualOverride
      && s.tvStates[name].locked == sys.tvStates[name].locked
    decreases |inputs|
  {
    if inputs != [] {
      var input := inputs[0];
      var t := sys.tvStates[name];
      TickUnderOverride(t, input.now, input.reachable(name), input.delivered(name));
      var next := Tick(sys, input);
      assert next.tvStates[name].locked == t.locked && next.tvStates[name].manualOverride;
      assert forall k :: 0 <= k < |inputs[1..]| ==> inputs[1..][k] == inputs[k + 1];
      OverrideHoldsAllDay(next, name, inputs[1..]);
    }
  }
}
