# KidsLock manager: the per-TV lock state machine

KidsLock is a Home Assistant add-on that enforces a daily screen-time budget
and a bedtime on a set of TVs. It keeps one in-memory record per TV (online,
locked, remaining minutes, manual override, and the configured daily limit,
bedtime and address), locks and unlocks a TV by an HTTP request to the TV,
and changes those records from three places: a monitor loop that runs every
30 seconds, dashboard commands (add time, toggle lock) and MQTT commands
("ON"/"OFF" on `kidslock/<slug>/set`).

This project models that state machine in Dafny and proves its properties.

- `clock.dfy` (module `Clock`): a time of day in microseconds since midnight,
  the configured `HH:MM` bedtime, and the bedtime test: strictly after the
  bedtime, or before 04:00.
- `topics.dfy` (module `Topics`): the slug of a TV name (lower-case, spaces to
  underscores) and the command topic built from it.
- `tv.dfy` (module `Tv`): the TV record and the transitions of one record:
  `Control` (control_tv), `Countdown`, `Decide` and `TickTv` (one TV's step of
  the monitor loop), `ResetTv`, `AddTimeTv`, `ToggleLockTv`, `ToggleTv` (the
  later toggle handler) and `MqttTv`.
- `registry.dfy` (module `Registry`): the table of all TVs as a map from name
  to record, its loading from the configured list, one monitor iteration over
  the whole table (new-day reset, then every TV's step), the commands on the
  table, and runs of any sequence of these events with the invariants they keep.
- `manager.dfy` (module `Manager`): class `KidsLock` holding the table and the
  last day of month seen, with methods that update them in place as the source
  does, loops over the table included. Each method's postcondition states the
  whole new state through the functions of `Registry` and `Tv`.

The network is modelled by booleans: whether a TV answered its ping
(`reachable`), and whether the HTTP request to it went through (`ok`,
`delivered`). `requests.post` raises on any transport error (a refused
connection, a timeout, an address it cannot build a URL from, too many
redirects), and the code catches every exception, so a request counts as
delivered exactly when it raised nothing, whatever HTTP status the TV
answered with. The code counts `remaining_minutes` down by a fixed half
minute per iteration, keeps the last day of month in memory, and sends a
request only when the lock state would change.

Facts the proofs bring out about the code:

- A manual override, once set, stops all automatic locking and unlocking
  until the next day or the next `add_time` (`Registry.OverrideHoldsAllDay`).
  The comment on `manual_override` says automatic locking is paused only
  until the manual state matches the automatic rules; the code never clears
  the override at that point, so a TV switched off by MQTT stays unlocked
  when its budget runs out later that day (see "## Findings").
- `add_time` unlocks a locked TV even at bedtime; because it also clears the
  override, the next tick locks it again for "Bedtime"
  (`Registry.AddTimeAtBedtimeIsUndone`).
- A bedtime before 04:00 makes every time of day bedtime
  (`Clock.EarlyBedtimeIsAllDay`); the bedtime minute itself is not yet
  bedtime, since the comparison is strict (`Clock.BedtimeStartsAfterItsMinute`).
- An MQTT message reaches every TV whose name has the same slug, so "Kid TV"
  and "kid_tv" share one topic (`Topics.DistinctNamesShareTopic`,
  `Registry.OnMessageReachesSameSlug`).
- MQTT "ON"/"OFF" sets the override even when the request to the TV failed.
- The budget stays non-negative across any run of events provided the daily
  limits are non-negative and no negative time is added; `add_time` accepts
  any integer, and a negative one can leave a budget below zero
  (`Registry.RunKeepsBudgets`, `Registry.NegativeAddTimeBreaksBudget`).

## Model

| member | source | states |
|---|---|---|
| `Manager.KidsLock.constructor` | main.py:37-47 | the table is the one built from the configured TVs in order, and the last day seen is the starting day |
| `Registry.InitialEntries` | main.py:38-47 | the table has exactly the configured names as keys; each entry is the fresh state of the last configuration with that name: offline, unlocked, no override, its daily limit as budget |
| `Manager.KidsLock.ControlTv` | main.py:128-149 | a request is sent exactly when the action would change the lock state; only that TV's `locked` changes, to the action, and only when delivered |
| `Tv.ControlOnlyTouchesLocked` | main.py:133-147 | control_tv changes nothing but `locked`, and changes it exactly when the request was needed and delivered |
| `Tv.ControlIdempotent` | main.py:133-147 | locking a locked TV or unlocking an unlocked one changes nothing |
| `Tv.ControlSucceeds` | main.py:133-144 | a delivered command leaves `locked == (action == lock)`, after which the same command is no longer needed |
| `Tv.ControlFails` | main.py:138-147 | a failed request leaves the record unchanged |
| `Tv.ControlTwice` | main.py:133-147 | issuing a command twice equals issuing it once, delivered if either attempt was |
| `Manager.KidsLock.ResetDay` | main.py:169-172 | every TV's budget becomes its daily limit and its override is cleared |
| `Registry.RolloverRestoresLimits` | main.py:167-173 | on a new day of month every TV gets its daily limit and loses its override, nothing else changes; on the same day nothing changes |
| `Manager.KidsLock.MonitorTv` | main.py:175-206 | one TV's step: ping recorded, countdown, then the automatic lock or unlock; returns the command decided on |
| `Manager.KidsLock.MonitorAll` | main.py:175-208 | the step of every TV, each entry updated from its own old value only; returns the commands issued by TV |
| `Manager.KidsLock.Tick` | main.py:164-208 | one loop iteration: the reset when the day differs, the last day becomes the current day, then every TV's step |
| `Tv.CountdownSpendsHalfMinute` | main.py:177-185 | the budget drops by half a minute, floored at zero, only when the TV is online and unlocked; otherwise only `online` changes |
| `Tv.CountdownBounded` | main.py:180-185 | a tick never raises a non-negative budget and never makes it negative |
| `Clock.AsTimeKeepsOrder` | main.py:189-196 | reading `HH:MM` as a time of day keeps the hour-then-minute order of readings and is one-to-one, so comparing times of day compares the readings as Python's `time` comparison does |
| `Clock.AwakeWindow` | main.py:194-196 | it is not bedtime exactly from 04:00 up to and including the bedtime, so bedtime holds when after the bedtime OR before 04:00 |
| `Clock.EarlyBedtimeIsAllDay` | main.py:194-196 | a bedtime before 04:00 makes every time of day bedtime |
| `Clock.BedtimeStartsAfterItsMinute` | main.py:189-196 | at the bedtime minute exactly it is not bedtime; one microsecond later it is |
| `Tv.OverrideIssuesNothing` | main.py:200 | with a manual override the tick issues no lock or unlock |
| `Tv.AutomaticDecision` | main.py:198-206 | without override: lock exactly when time is up (budget <= 0) or bedtime and unlocked; unlock exactly when neither and locked; the lock reason is "Bedtime" exactly at bedtime |
| `Tv.DecisionIsNeeded` | main.py:200-206 | every command the tick decides on is one control_tv actually sends |
| `Tv.TickReconciles` | main.py:175-206 | without override and with the request delivered, the TV ends locked exactly when time is up or it is bedtime; a failed request keeps `locked` |
| `Tv.TickUnderOverride` | main.py:175-206 | under an override a tick only records the ping and counts down |
| `Tv.TickKeeps` | main.py:175-206 | a tick keeps the configuration and the override and records the ping |
| `Registry.TickKeepsRegistry` | main.py:164-208 | a tick keeps the set of TVs and their configurations, and the last day becomes the tick's day |
| `Registry.NewDayTick` | main.py:167-185 | after the first tick of a new day no TV has an override and each budget is its limit, less at most this tick's half minute |
| `Registry.TickIssuesByDecision` | main.py:175-206 | a tick issues a command for a TV exactly when that TV's own decision does; never for an overridden TV on the same day |
| `Registry.BedtimeTickLocks` | main.py:194-203 | at bedtime, without override and with the request delivered, the TV ends locked |
| `Registry.OverrideHoldsAllDay` | main.py:200-206 | through any number of same-day ticks an overridden TV keeps its lock state and its override |
| `Tv.OffOverrideOutlastsBudget` | main.py:200-206 | a TV switched off by MQTT keeps its override through a tick at which its lock state agrees with the automatic rules, and the next tick, with its budget spent, neither locks it nor issues a lock |
| `Tv.ResumingTickWithoutOverride` | main.py:175-206 | without an override the tick that lets an override lapse is the tick as written |
| `Tv.ResumedOverrideLocksAgain` | main.py:46 | with the override lapsing as its comment describes, an override ends exactly when the lock state agrees with the automatic rules, issuing nothing; the next delivered tick then locks exactly when the budget is spent or it is bedtime |
| `Tv.ResumingOffOverrideLocksAtTimeUp` | main.py:46 | with the override lapsing, the MQTT "OFF" scenario ends with a lock for "Time Limit Reached" |
| `Manager.KidsLock.AddTime` | main.py:240-253 | add_time changes only the named TV as `Registry.AddTime` says; an unlock is sent exactly when that TV was locked |
| `Tv.AddTimeEffect` | main.py:242-249 | the budget grows by exactly the minutes, the override is cleared, and a locked TV is unlocked when the request is delivered |
| `Registry.AddTimeKeepsRegistry` | main.py:241-243 | add_time keeps the set of TVs and their configurations |
| `Registry.AddTimeAtBedtimeIsUndone` | main.py:242-249 | add_time at bedtime unlocks, and the next same-day tick locks again with reason "Bedtime" |
| `Registry.CommandsAreLocal` | main.py:240-262 | add_time and toggle_lock change only the named TV, and nothing for an unknown name |
| `Manager.KidsLock.ToggleLock` | main.py:255-262 | toggle requests unlock iff the TV is locked; the state afterwards is `Registry.ToggleLock`; an unknown name changes nothing |
| `Tv.ToggleLockEffect` | main.py:256-261 | toggle_lock always sets the override; `locked` flips only when the request is delivered |
| `Registry.FailedToggleLockSuspendsBedtime` | main.py:256-261 | a failed toggle_lock on an unlocked TV leaves it unlocked through a bedtime tick, with no lock sent |
| `Manager.KidsLock.Toggle` | kidslock-manager/main.py:2-15 | the later toggle requests unlock iff locked; the state afterwards is `Registry.Toggle`; an unknown name changes nothing |
| `Tv.TogglesAgreeWhenDelivered` | kidslock-manager/main.py:6-12 | a delivered toggle negates `locked` and sets the override, exactly as toggle_lock does |
| `Tv.TogglesDifferWhenFailed` | kidslock-manager/main.py:8-15 | on a failed request the later toggle changes nothing, while toggle_lock still sets the override |
| `Registry.ToggleOverrideMeansChange` | kidslock-manager/main.py:10-12 | with the later toggle a TV gains an override exactly when its lock state changed |
| `Registry.FailedToggleKeepsBedtime` | kidslock-manager/main.py:8-15 | after a failed later toggle the next bedtime tick still locks the TV, for reason "Bedtime" |
| `Manager.KidsLock.OnMessage` | main.py:79-93 | the state afterwards is `Registry.OnMessage`: every TV whose command topic matches handles the payload |
| `Tv.MqttEffect` | main.py:88-93 | "ON" sets the override and locks if delivered, "OFF" sets it and unlocks if delivered, any other payload changes nothing |
| `Registry.OnMessageEffect` | main.py:85-93 | a TV on the message's topic handles "ON"/"OFF" as above; other TVs and other payloads are left unchanged |
| `Registry.OnMessageReachesSameSlug` | main.py:85-93 | a message on one TV's topic also sets the override of every TV with the same slug |
| `Topics.Lower` | main.py:75 | lower-casing keeps the length and lowers each ASCII capital |
| `Topics.ReplaceSpaces` | main.py:75 | the replace keeps the length and turns each space into an underscore |
| `Topics.Slug` | main.py:75 | the slug maps the name character by character: lower first, then space to underscore |
| `Topics.SlugIsNormal` | main.py:75 | a slug contains no spaces and no ASCII capitals |
| `Topics.SlugIdempotent` | main.py:75 | the slug of a slug is itself |
| `Topics.SameSlugPointwise` | main.py:75 | names whose characters have equal slug characters have equal slugs |
| `Topics.SetTopicMatchesSlug` | main.py:86-87 | two names have the same command topic exactly when their slugs are equal |
| `Topics.DistinctNamesShareTopic` | main.py:86-87 | two distinct names can share a command topic |
| `Registry.ApplyKeepsBudgets` | main.py:164-262 | each tick or command keeps every budget and daily limit non-negative, provided no negative time is added |
| `Registry.RunKeepsBudgets` | main.py:180-185 | any run of ticks and commands keeps budgets non-negative, given non-negative limits and added minutes |
| `Registry.NegativeAddTimeBreaksBudget` | main.py:241-243 | adding negative minutes can make a budget negative |
| `Registry.RunKeepsRegistry` | main.py:38-47 | no run of ticks and commands adds or removes a TV or changes its configuration |

## Findings

| source | as written | input that shows it | evidently intended | confidence | as-written member | corrected member |
|---|---|---|---|---|---|---|
| main.py:255-262 | toggle_lock sets `manual_override` after control_tv whether or not the request went through | an unlocked TV with no override; a dashboard toggle whose request fails; then a tick at bedtime on the same day: the TV stays unlocked and no lock is sent, for the rest of the day | set the override only when the toggle took effect, as the later handler in kidslock-manager/main.py:8-12 does | medium; not executed | `Registry.FailedToggleLockSuspendsBedtime` | `Registry.FailedToggleKeepsBedtime` |
| main.py:46 | the comment says automatic locking is paused until the manual state matches the automatic rules, but only the new-day reset (main.py:171) and `add_time` (main.py:245) clear `manual_override`; a tick never does | a TV with one minute of budget, unlocked by MQTT "OFF" at noon: the next tick leaves it unlocked with half a minute left, as the rules want, yet keeps the override; the tick after that spends the budget and sends no lock | clear the override once `locked` equals the automatic decision (`Tv.TickTvResuming`), after which the automatic rules apply again | low; not executed | `Registry.OverrideHoldsAllDay` | `Tv.ResumedOverrideLocksAgain` |

## Left out

- HTTP requests to the TV, the ping and the MQTT publishing: each request is a boolean outcome, the ping a boolean per TV; the address, port 8080, timeouts and the published messages (`update_mqtt_state`, `publish_discovery`, `on_connect` subscriptions) are not modelled.
- The sqlite event log (`init_db`, `log_event`) and the dashboard page (`read_root`): persistence and display only; the reasons of commands outside the monitor loop are only logged and are not kept.
- Threading, `time.sleep(30)`, the web server and the loading of options.json: main.py takes no lock, so the monitor thread, the web handlers and the MQTT callback thread change `tv_states` concurrently; the model assumes each tick and each command runs as one atomic step, which the code does not guarantee (only the later handler in kidslock-manager/main.py takes `data_lock`). The configured TV list is a parameter.
- Timing and scheduling beyond the fixed step: the code has no measured tick interval, no elapsed-time counter or date of the last reset, no per-weekday schedule, no unlimited mode, no re-sending of a lock to correct drift and no check of the HTTP status, so the model has none either.
- The model's manager methods follow main.py's tick as written; the tick with a lapsing override (`Tv.TickTvResuming`) is stated beside it only to prove the finding's intended behaviour.
- `datetime.now()` and `strptime`: the day of month and the time of day are inputs, the bedtime is already parsed; a malformed bedtime, which raises in the monitor thread, is not modelled.
- The order in which the loops visit TVs: the model visits them in any order, which is sound because each TV's step reads and writes only its own entry.
- `last_seen`: set to None at load and never changed by this code.
- MQTT payload decoding: the payload is given as a string.
- `remainingMinutes` is a Dafny `real`: the source's floats hold the same values exactly (whole numbers plus halves), but float rounding for budgets beyond 2^52 minutes is not modelled.
- `Topics.Lower`: lowers only ASCII 'A'..'Z'; Python's `str.lower` also lowers non-ASCII letters, so slugs agree only for ASCII names.
