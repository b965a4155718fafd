/** Wall-clock arithmetic on the Asia/Taipei clock (a fixed UTC+8 offset with
    no daylight saving), and the time windows the endpoints derive from the
    current time. */
module Clock {
  import opened Telemetry

  const SecondsPerHour: int := 3600
  const SecondsPerDay: int := 86400
  /** Asia/Taipei is UTC+8 all year round. */
  const TaipeiOffset: int := 8 * SecondsPerHour

  /** The hours the business calendar is built from. */
  const OpeningHour: int := 8
  const DayShiftEndHour: int := 17
  const NightShiftStartHour: int := 19
  const NightShiftEndHour: int := 5

  type SecondOfDay = s: int | 0 <= s < 86400
  type Microsecond = m: int | 0 <= m < 1000000

  /** An aware `datetime` in Asia/Taipei, such as `datetime.now(taipei_tz)`:
      a day number, the second within that day and the microsecond. */
  datatype LocalTime = LocalTime(day: int, second: SecondOfDay, micro: Microsecond)

  /** `t.replace(hour=h, minute=0, second=0, microsecond=0)`. */
  function AtHour(t: LocalTime, h: int): LocalTime
    requires 0 <= h < 24
  {
    LocalTime(t.day, h * SecondsPerHour, 0)
  }

  /** `t - timedelta(days=1)`. */
  function DayBefore(t: LocalTime): LocalTime {
    LocalTime(t.day - 1, t.second, t.micro)
  }

  /** The value written to or compared with the `timestamp` column: the
      microseconds are dropped, as `strftime('%Y-%m-%d %H:%M:%S')` does. */
  function Stamp(t: LocalTime): Instant {
    t.day * SecondsPerDay + t.second
  }

  /** The `<` of two aware datetimes in the same zone. */
  predicate Earlier(a: LocalTime, b: LocalTime) {
    Stamp(a) < Stamp(b) || (Stamp(a) == Stamp(b) && a.micro < b.micro)
  }

  /** An instant a client sent as ISO 8601, already parsed to UTC whole
      seconds, moved to the Taipei wall clock by `astimezone`. */
  function ToTaipei(utc: int): (r: Instant)
    ensures r - utc == 8 * SecondsPerHour
  {
    utc + TaipeiOffset
  }

  /** A closed interval of timestamps, `[start, end]`. */
  datatype Window = Window(start: Instant, end: Instant)

  /** The start of today's business day, or `None` ("not yet open") when the
      current time is still before 08:00 today. */
  function BusinessOpen(now: LocalTime): (r: Option<Instant>)
    ensures r.None? <==> now.second < OpeningHour * SecondsPerHour
    ensures r.Some? ==> r.value == now.day * SecondsPerDay + OpeningHour * SecondsPerHour
    ensures r.Some? ==> r.value <= Stamp(now) < r.value + 16 * SecondsPerHour
  {
    var open := AtHour(now, OpeningHour);
    if Earlier(now, open) then None else Some(Stamp(open))
  }

  /** The window a shift endpoint computes for `shift_type` at time `now`. */
  function ResolveShift(kind: string, now: LocalTime): (r: Result<Window>)
    ensures r.Err? <==> kind != "day_shift" && kind != "night_shift" && kind != "since_morning"
    ensures r.Err? ==> r.error == InvalidShift
    ensures kind == "day_shift" ==>
      r == Ok(Window((now.day - 1) * SecondsPerDay + 8 * SecondsPerHour,
                     (now.day - 1) * SecondsPerDay + 17 * SecondsPerHour))
    ensures kind == "night_shift" ==>
      r == Ok(Window((now.day - 1) * SecondsPerDay + 19 * SecondsPerHour,
                     now.day * SecondsPerDay + 5 * SecondsPerHour))
    ensures kind == "since_morning" ==>
      r == Ok(Window(now.day * SecondsPerDay + 8 * SecondsPerHour,
                     now.day * SecondsPerDay + now.second))
  {
    if kind == "day_shift" then
      Ok(Window(Stamp(DayBefore(AtHour(now, OpeningHour))),
                Stamp(DayBefore(AtHour(now, DayShiftEndHour)))))
    else if kind == "night_shift" then
      Ok(Window(Stamp(DayBefore(AtHour(now, NightShiftStartHour))),
                Stamp(AtHour(now, NightShiftEndHour))))
    else if kind == "since_morning" then
      Ok(Window(Stamp(AtHour(now, OpeningHour)), Stamp(now)))
    else
      Err(InvalidShift)
  }

  /** The day shift lies wholly inside yesterday, so it has ended before any
      moment of today; it lasts nine hours. */
  lemma DayShiftIsYesterday(now: LocalTime)
    ensures var w := ResolveShift("day_shift", now).value;
      && (now.day - 1) * SecondsPerDay <= w.start
      && w.end < now.day * SecondsPerDay <= Stamp(now)
      && w.end - w.start == 9 * SecondsPerHour
  {
  }

  /** The night shift starts yesterday and ends today: it crosses midnight
      and lasts ten hours. */
  lemma NightShiftSpansMidnight(now: LocalTime)
    ensures var w := ResolveShift("night_shift", now).value;
      && (now.day - 1) * SecondsPerDay <= w.start < now.day * SecondsPerDay <= w.end
      && w.end - w.start == 10 * SecondsPerHour
  {
  }

  /** `since_morning` opens at the same instant as the daily total, and its
      window is non-empty exactly when the business day has opened. */
  lemma SinceMorningMatchesBusinessOpen(now: LocalTime)
    ensures var w := ResolveShift("since_morning", now).value;
      && (w.start <= w.end <==> BusinessOpen(now).Some?)
      && (BusinessOpen(now).Some? ==> w == Window(BusinessOpen(now).value, Stamp(now)))
  {
  }
}
