/**
 Time of day as the monitor loop sees it, and the bedtime test.

 A time of day is the number of microseconds since midnight, which is the
 resolution of the wall-clock reading the loop compares against. A bedtime is
 configured as "HH:MM", so it is an hour and a minute with zero seconds.
 */
module Clock {

  const MicrosPerMinute: nat := 60 * 1000000
  const MicrosPerDay: nat := 24 * 60 * MicrosPerMinute

  /** Microseconds since midnight. */
  type TimeOfDay = t: nat | t < MicrosPerDay

  type Hour = h: nat | h < 24
  type Minute = m: nat | m < 60

  /** A time of day given as "HH:MM", as a bedtime is configured. */
  datatype HourMinute = HourMinute(hour: Hour, minute: Minute)

  /** The time of day at which an "HH:MM" reading starts. */
  function AsTime(hm: HourMinute): TimeOfDay
  {
    (hm.hour * 60 + hm.minute) * MicrosPerMinute
  }

  /** Hour-then-minute order, the order in which Python compares two times of day. */
  predicate Before(a: HourMinute, b: HourMinute)
  {
    a.hour < b.hour || (a.hour == b.hour && a.minute < b.minute)
  }

  /**
   Reading "HH:MM" as a time of day keeps the order of readings and tells
   distinct readings apart, so comparing the times of day is comparing the
   readings themselves.
   */
  lemma AsTimeKeepsOrder(a: HourMinute, b: HourMinute)
    ensures AsTime(a) < AsTime(b) <==> Before(a, b)
    ensures AsTime(a) == AsTime(b) <==> a == b
  {
    var ka, kb := a.hour * 60 + a.minute, b.hour * 60 + b.minute;
    assert ka < kb <==> Before(a, b);
    assert ka == kb <==> a == b;
  }

  /** The end of the early-morning window that also counts as bedtime: 04:00. */
  const GraceEnd: TimeOfDay := AsTime(HourMinute(4, 0))

  /** It is bedtime strictly after the configured bedtime, or before 04:00. */
  predicate IsBedtime(now: TimeOfDay, bedtime: HourMinute)
  {
    now > AsTime(bedtime) || now < GraceEnd
  }

  /** Outside bedtime exactly on the closed interval from 04:00 to the bedtime minute. */
  lemma AwakeWindow(now: TimeOfDay, bedtime: HourMinute)
    ensures !IsBedtime(now, bedtime) <==> GraceEnd <= now <= AsTime(bedtime)
  {
  }

  /** A bedtime configured before 04:00 makes every time of day bedtime. */
  lemma EarlyBedtimeIsAllDay(now: TimeOfDay, bedtime: HourMinute)
    requires bedtime.hour < 4
    ensures IsBedtime(now, bedtime)
  {
  }

  /**
   The bedtime minute itself is not yet bedtime (for a bedtime from 04:00 on);
   one microsecond later it is.
   */
  lemma BedtimeStartsAfterItsMinute(bedtime: HourMinute)
    requires bedtime.hour >= 4
    ensures !IsBedtime(AsTime(bedtime), bedtime)
    ensures IsBedtime(AsTime(bedtime) + 1, bedtime)
  {
  }
}
