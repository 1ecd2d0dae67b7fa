/**
 * Wall-clock time as the daemon sees it.
 *
 * An instant is a whole number of seconds counted from local midnight of
 * day 0, and day 0 is a Monday.  A Python `datetime` on day `d` at time of
 * day `s` is the instant `d * 86400 + s`; its `.date()` is `Day(t)` and its
 * `.time()` is `TimeOfDay(t)`.
 */
module Clock {
  import opened Wrappers

  const SECONDS_PER_DAY := 86400
  /** `dtime(2, 0)`, the time of day after which the daemon re-checks the schedule. */
  const TWO_AM := 2 * 3600
  /** `date.weekday()` of a Friday, the congregational day. */
  const FRIDAY := 4

  type SecondOfDay = s: int | 0 <= s < 86400

  function Day(t: int): int { t / SECONDS_PER_DAY }

  function TimeOfDay(t: int): SecondOfDay { t % SECONDS_PER_DAY }

  /** `datetime.combine(day, time)` */
  function At(day: int, tod: SecondOfDay): int { day * SECONDS_PER_DAY + tod }

  /** `date.weekday()`: 0 is Monday, 6 is Sunday. */
  function Weekday(day: int): (w: int)
    ensures 0 <= w < 7
  {
    day % 7
  }

  /**
   * Day 0 is a Monday, and weekdays run in a 7-day cycle: the next date has
   * the next weekday, and Sunday (6) is followed by Monday (0).  Hence a
   * date is a Friday exactly when it is 4 days after a multiple of 7.
   */
  lemma WeekdayCycle(day: int)
    ensures Weekday(0) == 0
    ensures Weekday(day + 1) == (Weekday(day) + 1) % 7
    ensures Weekday(day + 7) == Weekday(day)
    ensures Weekday(day) == FRIDAY <==> exists k :: day == 7 * k + 4
  {
    var k := day / 7;
    assert day == 7 * k + Weekday(day);
    if exists j :: day == 7 * j + 4 {
      var j :| day == 7 * j + 4;
      assert day / 7 == j;
    }
  }

  /** Splitting an instant into its date and time of day and combining them again is the identity, and vice versa. */
  lemma DateTimeRoundTrip(t: int, day: int, tod: SecondOfDay)
    ensures At(Day(t), TimeOfDay(t)) == t
    ensures Day(At(day, tod)) == day && TimeOfDay(At(day, tod)) == tod
  {
    var u := At(day, tod);
    assert u == day * SECONDS_PER_DAY + tod;
  }

  /** An instant is determined by its date and its time of day. */
  lemma DateTimeInjective(t: int, u: int)
    ensures (Day(t) == Day(u) && TimeOfDay(t) == TimeOfDay(u)) <==> t == u
  {
    DateTimeRoundTrip(t, 0, 0);
    DateTimeRoundTrip(u, 0, 0);
  }

  /**
   * A time of day as the schedule source writes it, "h:mmAM" or "h:mmPM",
   * read by `strptime` with the format "%I:%M%p".
   */
  datatype ClockText = ClockText(hour: int, minute: int, pm: bool)

  /** What `%I` (1 to 12) and `%M` (0 to 59) accept. */
  predicate ValidClockText(c: ClockText) {
    1 <= c.hour <= 12 && 0 <= c.minute <= 59
  }

  /**
   * The time of day `parse_today_dt` gives the text; `None` where `strptime`
   * raises.  12 AM is midnight and 12 PM is noon.
   */
  function ParseClock(c: ClockText): (r: Option<SecondOfDay>)
    ensures r.Some? <==> ValidClockText(c)
    ensures r.Some? ==> r.value % 60 == 0
    ensures r.Some? ==> (c.pm <==> r.value >= 12 * 3600)
  {
    if ValidClockText(c) then
      Some((c.hour % 12 + (if c.pm then 12 else 0)) * 3600 + c.minute * 60)
    else
      None
  }

  /** How `strftime("%I:%M %p")` shows a time of day (seconds are dropped). */
  function FormatClock(tod: SecondOfDay): (c: ClockText)
    ensures ValidClockText(c)
  {
    var h := tod / 3600;
    ClockText(if h % 12 == 0 then 12 else h % 12, (tod % 3600) / 60, h >= 12)
  }

  /** Reading back a displayed time gives the time truncated to the minute. */
  lemma ParseFormat(tod: SecondOfDay)
    ensures ParseClock(FormatClock(tod)) == Some(tod - tod % 60)
  {
    var h := tod / 3600;
    var m := (tod % 3600) / 60;
    assert tod == h * 3600 + m * 60 + tod % 60;
  }

  /** Displaying a parsed time gives back the hour, minute and AM/PM that were parsed. */
  lemma FormatParse(c: ClockText)
    requires ValidClockText(c)
    ensures FormatClock(ParseClock(c).value) == c
  {
    var h := c.hour % 12 + (if c.pm then 12 else 0);
    var tod := h * 3600 + c.minute * 60;
    assert tod / 3600 == h;
    assert (tod % 3600) / 60 == c.minute;
  }
}
