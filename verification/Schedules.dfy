/**
 Daily schedules and their slots (`service.rs`): clock times, local days and the next opening.

 Day arithmetic is Euclidean, as the program's is, so that the days of negative local times come out
 right, and a day belongs to the schedule's own offset.
 */
module Schedules {
  import opened Wrappers
  import opened Text

  const DAY_SECONDS: int := 86400

  datatype MinuteError = NotClockTime | OutOfRange

  /** Two decimal digits of `at`, as `str::parse` reads them. */
  function TwoDigits(at: string, i: nat): (n: nat)
    requires i + 1 < |at| && IsDigit(at[i]) && IsDigit(at[i + 1])
    ensures n < 100
  {
    10 * DigitValue(at[i]) + DigitValue(at[i + 1])
  }

  /** `minute` */
  function Minute(at: string): (r: Result<nat, MinuteError>)
    ensures r.Success? ==> r.value < 1440
  {
    if |at| != 5 || at[2] != ':' || !(IsDigit(at[0]) && IsDigit(at[1]) && IsDigit(at[3]) && IsDigit(at[4])) then
      Failure(NotClockTime)
    else
      var h, m := TwoDigits(at, 0), TwoDigits(at, 3);
      if h > 23 || m > 59 then Failure(OutOfRange) else Success(h * 60 + m)
  }

  type MinuteOfDay = m: nat | m < 1440

  /** A minute of the day as a clock shows it. */
  function Clock(minute: MinuteOfDay): (at: string) {
    var h, m := minute / 60, minute % 60;
    [Digit(h / 10), Digit(h % 10), ':', Digit(m / 10), Digit(m % 10)]
  }

  lemma DigitInverse(d: DecimalDigit)
    ensures DigitValue(Digit(d)) == d
  {
  }

  lemma ClockShowsMinute(minute: MinuteOfDay)
    ensures Minute(Clock(minute)) == Success(minute)
  {
    var h, m := minute / 60, minute % 60;
    DigitInverse(h / 10);
    DigitInverse(h % 10);
    DigitInverse(m / 10);
    DigitInverse(m % 10);
  }

  lemma HoursAndMinutes(h: nat, m: nat)
    ensures m < 60 ==> (h * 60 + m) / 60 == h && (h * 60 + m) % 60 == m
  {
  }

  lemma TwoDigitsShown(at: string, i: nat)
    ensures i + 1 < |at| && IsDigit(at[i]) && IsDigit(at[i + 1]) ==> var n := TwoDigits(at, i); at[i] == Digit(n / 10) && at[i + 1] == Digit(n % 10)
  {
  }

  lemma MinuteShown(at: string)
    requires Minute(at).Success?
    ensures at == Clock(Minute(at).value)
  {
    hide TwoDigits, Digit;
    HoursAndMinutes(TwoDigits(at, 0), TwoDigits(at, 3));
    TwoDigitsShown(at, 0);
    TwoDigitsShown(at, 3);
  }

  /** `minute` accepts exactly the 1440 clock times, each as the minute it shows. */
  lemma MinuteExact(at: string)
    ensures Minute(at).Success? <==> exists minute :: 0 <= minute < 1440 && at == Clock(minute)
    ensures Minute(at).Success? ==> at == Clock(Minute(at).value)
  {
    hide Minute, Clock;
    if Minute(at).Success? {
      MinuteShown(at);
    }
    forall minute | 0 <= minute < 1440 && at == Clock(minute) ensures Minute(at).Success? {
      ClockShowsMinute(minute);
    }
  }

  datatype Schedule = Schedule(kind: string, at: string, enabled: bool, offset: int)

  datatype ScheduleError = UnknownKind | BadTime(error: MinuteError) | BadOffset

  predicate ValidOffset(offset: int) {
    -720 <= offset <= 840
  }

  /** `Schedule::validate` */
  function Validate(s: Schedule): (r: Result<(), ScheduleError>)
    ensures r.Success? <==> (s.kind == "publish" || s.kind == "backup") && Minute(s.at).Success? && ValidOffset(s.offset)
  {
    if s.kind != "publish" && s.kind != "backup" then Failure(UnknownKind)
    else if Minute(s.at).Failure? then Failure(BadTime(Minute(s.at).error))
    else if !ValidOffset(s.offset) then Failure(BadOffset)
    else Success(())
  }

  /** `now / 1000`: the source's division drops the fraction towards zero. */
  function Seconds(now: int): int {
    if now >= 0 then now / 1000 else -((-now) / 1000)
  }

  function Local(s: Schedule, now: int): int {
    Seconds(now) + s.offset * 60
  }

  /** `Schedule::slot`: the local day whose time of day has come, if the schedule is on. */
  function SlotOf(s: Schedule, now: int): Option<int> {
    var local := Local(s, now);
    match Minute(s.at)
    case Failure(_) => None
    case Success(minute) =>
      if s.enabled && local % DAY_SECONDS >= minute * 60 then Some(local / DAY_SECONDS) else None
  }

  /** `Schedule::next_at` */
  function NextAt(s: Schedule, now: int): int {
    var local := Local(s, now);
    var minute := match Minute(s.at) case Success(m) => m case Failure(_) => 0;
    var today := local / DAY_SECONDS * DAY_SECONDS + minute * 60;
    var next := if today <= local then today + DAY_SECONDS else today;
    (next - s.offset * 60) * 1000
  }

  /** The first millisecond of a day's slot. */
  function Opens(s: Schedule, day: int): int
    requires Minute(s.at).Success?
  {
    (day * DAY_SECONDS + Minute(s.at).value * 60 - s.offset * 60) * 1000
  }

  /** The first millisecond after a day's slot: local midnight. */
  function Closes(s: Schedule, day: int): int {
    ((day + 1) * DAY_SECONDS - s.offset * 60) * 1000
  }

  lemma SecondsBetween(now: nat, x: int)
    ensures x * 1000 <= now <==> x <= now / 1000
  {
  }

  lemma DayOf(local: int, day: int)
    ensures local / DAY_SECONDS == day <==> day * DAY_SECONDS <= local < (day + 1) * DAY_SECONDS
  {
  }

  /** A day's slot is open exactly from its time of day to local midnight. */
  lemma SlotWindow(s: Schedule, t: int, day: int)
    requires s.enabled && Minute(s.at).Success? && t >= 0
    ensures SlotOf(s, t) == Some(day) <==> Opens(s, day) <= t < Closes(s, day)
  {
    var local, minute := Local(s, t), Minute(s.at).value;
    DayOf(local, day);
    SecondsBetween(t, day * DAY_SECONDS + minute * 60 - s.offset * 60);
    SecondsBetween(t, (day + 1) * DAY_SECONDS - s.offset * 60);
  }

  lemma NextOpens(s: Schedule, now: int)
    requires s.enabled && Minute(s.at).Success? && now >= 0
    ensures var today := Local(s, now) / DAY_SECONDS;
      NextAt(s, now) == if SlotOf(s, now).Some? then Opens(s, today + 1) else Opens(s, today)
    ensures now < NextAt(s, now) <= now + 1000 * DAY_SECONDS
  {
  }

  /**
   For every enabled valid schedule: the next opening lies ahead by at most a day, is the first
   millisecond of its slot, and until then no slot opens that is not open now.
   */
  lemma NoSlotOpensUnseen(s: Schedule, now: int, t: int)
    requires s.enabled && Validate(s).Success? && 0 <= now <= t < NextAt(s, now)
    ensures now < NextAt(s, now) <= now + 1000 * DAY_SECONDS
    ensures SlotOf(s, NextAt(s, now)).Some? && SlotOf(s, NextAt(s, now) - 1) != SlotOf(s, NextAt(s, now))
    ensures SlotOf(s, t).None? || SlotOf(s, t) == SlotOf(s, now)
  {
    NextOpens(s, now);
    var today := Local(s, now) / DAY_SECONDS;
    var next := if SlotOf(s, now).Some? then today + 1 else today;
    SlotWindow(s, NextAt(s, now), next);
    SlotWindow(s, NextAt(s, now) - 1, next);
    if SlotOf(s, t).Some? {
      SlotWindow(s, t, SlotOf(s, t).value);
      SlotWindow(s, now, SlotOf(s, t).value);
      OpeningsGrow(s, next, SlotOf(s, t).value);
      SameDayOrLater(s, now, t);
    }
  }

  lemma OpeningsGrow(s: Schedule, a: int, b: int)
    ensures Minute(s.at).Success? ==> (Opens(s, a) <= Opens(s, b) <==> a <= b)
  {
  }

  lemma SameDayOrLater(s: Schedule, now: int, t: int)
    ensures 0 <= now <= t ==> Local(s, now) / DAY_SECONDS <= Local(s, t) / DAY_SECONDS
  {
  }
}
