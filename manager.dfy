/**
 The manager's in-memory state and the procedures that update it in place:
 loading the TV table, control_tv, one iteration of the monitor loop (the
 new-day reset and the step of each TV), and the commands that arrive from the
 dashboard and from MQTT.

 Each procedure is one atomic step; the whole new state is stated through the
 functions of `Registry` and `Tv`, whose properties are proved there.
 */
module Manager {
  import opened Clock
  import opened Topics
  import opened Tv
  import Registry

  class KidsLock {
    /** The TV table, by TV name. */
    var tvStates: Registry.Table
    /** The day of month the monitor loop saw last. */
    var lastDay: nat

    /** Load the configured TVs in order; `today` is the day of month when the monitor starts. */
    constructor (tvs: seq<TvConfig>, today: nat)
      ensures tvStates == Registry.Initial(tvs)
      ensures lastDay == today
    {
      var table: Registry.Table := map[];
      var i := 0;
      while i < |tvs|
        invariant 0 <= i <= |tvs|
        invariant table == Registry.Initial(tvs[..i])
      {
        assert tvs[..i + 1][..i] == tvs[..i];
        table := table[tvs[i].name := InitialState(tvs[i])];
        i := i + 1;
      }
      assert tvs[..|tvs|] == tvs;
      tvStates := table;
      lastDay := today;
    }

    /**
     control_tv: send the command only if it changes the lock state; `locked`
     follows it only when the request is delivered. `sent` says whether a
     request went out.
     */
    method ControlTv(name: string, action: Action, ok: bool) returns (sent: bool)
      requires name in tvStates
      modifies this
      ensures sent == Needed(old(tvStates)[name], action)
      ensures tvStates == old(tvStates)[name := Control(old(tvStates)[name], action, ok)]
      ensures lastDay == old(lastDay)
    {
      var state := tvStates[name];
      sent := false;
      if action == Lock && !state.locked {
        sent := true;
        if ok {
          tvStates := tvStates[name := state.(locked := true)];
        }
      } else if action == Unlock && state.locked {
        sent := true;
        if ok {
          tvStates := tvStates[name := state.(locked := false)];
        }
      }
    }

    /** The new-day reset: every TV gets its daily limit back and loses its override. */
    method ResetDay()
      modifies this
      ensures tvStates == Registry.Rollover(old(tvStates))
      ensures lastDay == old(lastDay)
    {
      ghost var start := tvStates;
      var todo := tvStates.Keys;
      while todo != {}
        invariant todo <= start.Keys && tvStates.Keys == start.Keys
        invariant lastDay == old(lastDay)
        invariant forall n :: n in start && n !in todo ==> tvStates[n] == ResetTv(start[n])
        invariant forall n :: n in todo ==> tvStates[n] == start[n]
        decreases todo
      {
        var name :| name in todo;
        var state := tvStates[name];
        tvStates := tvStates[name := state.(remainingMinutes := state.config.dailyLimit as real, manualOverride := false)];
        todo := todo - {name};
      }
    }

    /**
     The step of one TV in a monitor iteration: record the ping, count down,
     then lock or unlock by the automatic rules unless an override holds.
     Returns the command it decided on.
     */
    method MonitorTv(name: string, now: TimeOfDay, online: bool, ok: bool) returns (issued: Option<Command>)
      requires name in tvStates
      modifies this
      ensures var s := TickTv(old(tvStates)[name], now, online, ok);
        tvStates == old(tvStates)[name := s.tv] && issued == s.issued
      ensures lastDay == old(lastDay)
    {
      var state := tvStates[name].(online := online);
      if online {
        if !state.locked {
          state := state.(remainingMinutes := Max0(state.remainingMinutes - TickMinutes));
        }
      }
      tvStates := tvStates[name := state];
      var bedtime := IsBedtime(now, state.config.bedtime);
      var timeUp := state.remainingMinutes <= 0.0;
      issued := None;
      if !state.manualOverride {
        if (timeUp || bedtime) && !state.locked {
          issued := Some(Command(Lock, if bedtime then BedtimeReason else LimitReason));
          var sent := ControlTv(name, Lock, ok);
        } else if !timeUp && !bedtime && state.locked {
          issued := Some(Command(Unlock, MorningReason));
          var sent := ControlTv(name, Unlock, ok);
        }
      }
    }

    /** The step of every TV in one monitor iteration. Returns the commands issued, by TV. */
    method MonitorAll(now: TimeOfDay, reachable: string -> bool, delivered: string -> bool)
      returns (issued: map<string, Command>)
      modifies this
      ensures tvStates == Registry.Ticked(old(tvStates), now, reachable, delivered)
      ensures issued == Registry.IssuedBy(old(tvStates), now, reachable, delivered)
      ensures lastDay == old(lastDay)
    {
      ghost var start := tvStates;
      var todo := tvStates.Keys;
      issued := map[];
      while todo != {}
        invariant todo <= start.Keys && tvStates.Keys == start.Keys
        invariant lastDay == old(lastDay)
        invariant forall n :: n in start && n !in todo ==>
          tvStates[n] == TickTv(start[n], now, reachable(n), delivered(n)).tv
        invariant forall n :: n in todo ==> tvStates[n] == start[n]
        invariant issued.Keys <= start.Keys - todo
        invariant forall n :: n in start && n !in todo ==>
          var s := TickTv(start[n], now, reachable(n), delivered(n));
          (n in issued <==> s.issued.Some?) && (n in issued ==> issued[n] == s.issued.value)
        decreases todo
      {
        var name :| name in todo;
        var command := MonitorTv(name, now, reachable(name), delivered(name));
        if command.Some? {
          issued := issued[name := command.value];
        }
        todo := todo - {name};
      }
      assert tvStates == Registry.Ticked(start, now, reachable, delivered);
      assert issued == Registry.IssuedBy(start, now, reachable, delivered);
    }

    /**
     One iteration of the monitor loop: the new-day reset if the day of month
     changed, then the step of every TV. Returns the commands issued, by TV.
     */
    method Tick(day: nat, now: TimeOfDay, reachable: string -> bool, delivered: string -> bool)
      returns (issued: map<string, Command>)
      modifies this
      ensures var input := Registry.TickInput(day, now, reachable, delivered);
        var before := Registry.Sys(old(tvStates), old(lastDay));
        && Registry.Sys(tvStates, lastDay) == Registry.Tick(before, input)
        && issued == Registry.TickIssued(before, input)
    {
      if day != lastDay {
        ResetDay();
        lastDay := day;
      }
      issued := MonitorAll(now, reachable, delivered);
    }

    /**
     add_time: add the minutes to a known TV, clear its override, and unlock it
     if it is locked. `unlockSent` says whether an unlock went out.
     */
    method AddTime(name: string, minutes: int, ok: bool) returns (unlockSent: bool)
      modifies this
      ensures tvStates == Registry.AddTime(old(tvStates), name, minutes, ok)
      ensures unlockSent <==> name in old(tvStates) && old(tvStates)[name].locked
      ensures lastDay == old(lastDay)
    {
      unlockSent := false;
      if name in tvStates {
        var state := tvStates[name];
        tvStates := tvStates[name := state.(remainingMinutes := state.remainingMinutes + minutes as real,
                                            manualOverride := false)];
        if tvStates[name].locked {
          unlockSent := ControlTv(name, Unlock, ok);
        }
      }
    }

    /**
     toggle_lock: send the opposite of the current lock state to a known TV and
     set its override, whether or not the request went through.
     */
    method ToggleLock(name: string, ok: bool) returns (requested: Option<Action>)
      modifies this
      ensures tvStates == Registry.ToggleLock(old(tvStates), name, ok)
      ensures requested == if name in old(tvStates) then Some(if old(tvStates)[name].locked then Unlock else Lock) else None
      ensures lastDay == old(lastDay)
    {
      requested := None;
      if name in tvStates {
        var action := if tvStates[name].locked then Unlock else Lock;
        requested := Some(action);
        var sent := ControlTv(name, action, ok);
        tvStates := tvStates[name := tvStates[name].(manualOverride := true)];
      }
    }

    /**
     on_message: every TV whose command topic is `topic` locks on "ON" and
     unlocks on "OFF", and gets its override set; other payloads do nothing.
     */
    method OnMessage(topic: string, payload: string, delivered: string -> bool)
      modifies this
      ensures tvStates == Registry.OnMessage(old(tvStates), topic, payload, delivered)
      ensures lastDay == old(lastDay)
    {
      ghost var start := tvStates;
      var todo := tvStates.Keys;
      while todo != {}
        invariant todo <= start.Keys && tvStates.Keys == start.Keys
        invariant lastDay == old(lastDay)
        invariant forall n :: n in start && n !in todo ==>
          tvStates[n] == if topic == SetTopic(n) then MqttTv(start[n], payload, delivered(n)) else start[n]
        invariant forall n :: n in todo ==> tvStates[n] == start[n]
        decreases todo
      {
        var name :| name in todo;
        var slug := Slug(name);
        if topic == TopicPrefix + slug + SetSuffix {
          if payload == OnPayload {
            var sent := ControlTv(name, Lock, delivered(name));
            tvStates := tvStates[name := tvStates[name].(manualOverride := true)];
          } else if payload == OffPayload {
            var sent := ControlTv(name, Unlock, delivered(name));
            tvStates := tvStates[name := tvStates[name].(manualOverride := true)];
          }
        }
        todo := todo - {name};
      }
    }

    /**
     The later toggle handler: send the opposite of the current lock state to a
     known TV; only a delivered request flips `locked` and sets the override.
     */
    method Toggle(name: string, ok: bool) returns (requested: Option<Action>)
      modifies this
      ensures tvStates == Registry.Toggle(old(tvStates), name, ok)
      ensures requested == if name in old(tvStates) then Some(if old(tvStates)[name].locked then Unlock else Lock) else None
      ensures lastDay == old(lastDay)
    {
      requested := None;
      if name in tvStates {
        var action := if tvStates[name].locked then Unlock else Lock;
        requested := Some(action);
        if ok {
          tvStates := tvStates[name := tvStates[name].(locked := !tvStates[name].locked, manualOverride := true)];
        }
      }
    }
  }
}
