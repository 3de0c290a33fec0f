/**
 The display helpers of `src/utils/streakCalculator.ts`: milestone
 detection, the insight message, the check-in time in 12-hour form and the
 monthly completion rate.
 */
module CheckInDisplay {
  import opened Calendar
  import opened Activity
  import Decimal

  // ----- Milestones -----

  /** The streak lengths that trigger a celebration, in the application's order. */
  const Milestones: seq<int> := [5, 10, 30, 50, 100, 365]

  /** `isMilestone`: exact membership in the milestone list, not a threshold. */
  function IsMilestone(streak: int): (b: bool)
    ensures b <==> streak in {5, 10, 30, 50, 100, 365}
  {
    streak in Milestones
  }

  /**
   Exactness: the day before and the day after a milestone are never
   milestones, so a streak growing one day at a time celebrates each
   milestone on exactly one day.
   */
  lemma MilestoneIsExact(streak: int)
    requires IsMilestone(streak)
    ensures !IsMilestone(streak - 1) && !IsMilestone(streak + 1)
  {
  }

  /**
   The streak values the check-in screen celebrates over `days` check-ins that
   each raise the streak by one, starting from `from`: every milestone in
   `(from, from + days]`, each exactly once, in the order reached.
   */
  function MilestoneAlerts(from: nat, days: nat): (alerts: seq<nat>)
    ensures forall n :: n in alerts <==> from < n <= from + days && IsMilestone(n)
    ensures forall i, j :: 0 <= i < j < |alerts| ==> alerts[i] < alerts[j]
    decreases days
  {
    if days == 0 then []
    else
      var earlier := MilestoneAlerts(from, days - 1);
      var streak := from + days;
      if IsMilestone(streak) then
        assert forall i :: 0 <= i < |earlier| ==> earlier[i] in earlier;
        earlier + [streak]
      else earlier
  }

  // ----- Insight message -----

  /** Which encouragement the insight card shows; each kind carries the number it interpolates. */
  datatype Insight =
    | StartJourney
    | DontBreakChain
    | NewRecord(longest: nat)
    | Incredible(days: nat)
    | OnFire(days: nat)
    | KeepItUp(days: nat)
    | GreatMomentum(days: nat)
    | KeepGoing(days: nat)

  /**
   `getInsightMessage`'s branch selection, first match wins: no streak and no
   check-ins; no streak after earlier check-ins; a current streak that is the
   record (and more than one day); then the 30, 10, 5 and 3 day tiers; and
   otherwise the plain count.
   */
  function ClassifyInsight(data: StreakData): (r: Insight)
    ensures r == StartJourney <==> data.currentStreak == 0 && data.totalCheckIns == 0
    ensures r == DontBreakChain <==> data.currentStreak == 0 && data.totalCheckIns > 0
    ensures r.NewRecord? <==> 1 < data.currentStreak == data.longestStreak
    ensures r.NewRecord? ==> r.longest == data.longestStreak
    ensures r.Incredible? <==> data.currentStreak >= 30 && data.currentStreak != data.longestStreak
    ensures r.OnFire? <==> 10 <= data.currentStreak < 30 && data.currentStreak != data.longestStreak
    ensures r.KeepItUp? <==> 5 <= data.currentStreak < 10 && data.currentStreak != data.longestStreak
    ensures r.GreatMomentum? <==> 3 <= data.currentStreak < 5 && data.currentStreak != data.longestStreak
    ensures r.KeepGoing? <==> data.currentStreak == 1 || (data.currentStreak == 2 && data.longestStreak != 2)
    ensures !(r.StartJourney? || r.DontBreakChain? || r.NewRecord?) ==> r.days == data.currentStreak
  {
    var current := data.currentStreak;
    if current == 0 && data.totalCheckIns == 0 then StartJourney
    else if current == 0 && data.totalCheckIns > 0 then DontBreakChain
    else if current == data.longestStreak && current > 1 then NewRecord(data.longestStreak)
    else if current >= 30 then Incredible(current)
    else if current >= 10 then OnFire(current)
    else if current >= 5 then KeepItUp(current)
    else if current >= 3 then GreatMomentum(current)
    else KeepGoing(current)
  }

  /** The text shown for each kind of insight. */
  function InsightText(insight: Insight): string {
    match insight
    case StartJourney => "Start your journey today!"
    // one sentence in the app; written as two literals because the verifier
    // does not look inside a single literal this long
    case DontBreakChain => "Don't break the chain! " + "Start a new streak today."
    case NewRecord(longest) => "New record! Your longest streak is " + Decimal.NatToString(longest) + " days!"
    case Incredible(n) => "Incredible! " + Decimal.NatToString(n) + " days in a row!"
    case OnFire(n) => "You're on fire! " + Decimal.NatToString(n) + " days in a row!"
    case KeepItUp(n) => "Keep it up! " + Decimal.NatToString(n) + " days strong!"
    case GreatMomentum(n) => "Great momentum! " + Decimal.NatToString(n) + " days in a row!"
    case KeepGoing(n) => Decimal.NatToString(n) + " day streak - keep going!"
  }

  /** `getInsightMessage`. */
  function InsightMessage(data: StreakData): (message: string)
    ensures message == InsightText(StartJourney)
            <==> data.currentStreak == 0 && data.totalCheckIns == 0
    ensures message == InsightText(DontBreakChain)
            <==> data.currentStreak == 0 && data.totalCheckIns > 0
  {
    var insight := ClassifyInsight(data);
    OnlyInsightReadsSo(insight, StartJourney);
    OnlyInsightReadsSo(insight, DontBreakChain);
    InsightText(insight)
  }

  /** An insight reads like `other` exactly when it is `other`. */
  lemma OnlyInsightReadsSo(insight: Insight, other: Insight)
    ensures InsightText(insight) == InsightText(other) <==> insight == other
  {
    if InsightText(insight) == InsightText(other) {
      InsightTextInjective(insight, other);
    }
  }

  /**
   The message determines the branch: two streak summaries get the same
   message only when they fall in the same branch with the same number.
   */
  lemma MessageDeterminesInsight(a: StreakData, b: StreakData)
    requires InsightMessage(a) == InsightMessage(b)
    ensures ClassifyInsight(a) == ClassifyInsight(b)
  {
    InsightTextInjective(ClassifyInsight(a), ClassifyInsight(b));
  }

  /** Different insights read differently. */
  lemma InsightTextInjective(a: Insight, b: Insight)
    requires InsightText(a) == InsightText(b)
    ensures a == b
  {
    LeadingText(a);
    LeadingText(b);
    match a
    case NewRecord(x) =>
      NumberAfterPrefix("New record! Your longest streak is ", x, b.longest, " days!");
    case Incredible(x) =>
      NumberAfterPrefix("Incredible! ", x, b.days, " days in a row!");
    case OnFire(x) =>
      NumberAfterPrefix("You're on fire! ", x, b.days, " days in a row!");
    case KeepItUp(x) =>
      NumberAfterPrefix("Keep it up! ", x, b.days, " days strong!");
    case GreatMomentum(x) =>
      NumberAfterPrefix("Great momentum! ", x, b.days, " days in a row!");
    case KeepGoing(x) =>
      assert InsightText(a) == "" + Decimal.NatToString(x) + " day streak - keep going!";
      assert InsightText(b) == "" + Decimal.NatToString(b.days) + " day streak - keep going!";
      NumberAfterPrefix("", x, b.days, " day streak - keep going!");
    case _ =>
  }

  /** The first characters of each message, which tell the kinds apart. */
  function Lead(insight: Insight): char
    requires !insight.KeepGoing?
  {
    match insight
    case StartJourney => 'S'
    case DontBreakChain => 'D'
    case NewRecord(_) => 'N'
    case Incredible(_) => 'I'
    case OnFire(_) => 'Y'
    case KeepItUp(_) => 'K'
    case GreatMomentum(_) => 'G'
  }

  lemma LeadingText(insight: Insight)
    ensures 1 <= |InsightText(insight)|
    ensures insight.KeepGoing? <==> Decimal.IsDigit(InsightText(insight)[0])
    ensures !insight.KeepGoing? ==> InsightText(insight)[0] == Lead(insight)
  {
    match insight
    case NewRecord(n) =>
      assert InsightText(insight)[0] == "New record! Your longest streak is "[0];
    case Incredible(n) =>
      assert InsightText(insight)[0] == "Incredible! "[0];
    case OnFire(n) =>
      assert InsightText(insight)[0] == "You're on fire! "[0];
    case KeepItUp(n) =>
      assert InsightText(insight)[0] == "Keep it up! "[0];
    case GreatMomentum(n) =>
      assert InsightText(insight)[0] == "Great momentum! "[0];
    case KeepGoing(n) =>
      assert InsightText(insight)[0] == Decimal.NatToString(n)[0];
    case StartJourney =>
      assert InsightText(insight)[0] == 'S';
    case DontBreakChain =>
      assert InsightText(insight)[0] == 'D';
  }

  /** Two renderings `prefix + n + suffix` are equal only for equal numbers. */
  lemma NumberAfterPrefix(prefix: string, m: nat, n: nat, suffix: string)
    requires |suffix| > 0 && suffix[0] == ' '
    requires prefix + Decimal.NatToString(m) + suffix == prefix + Decimal.NatToString(n) + suffix
    ensures m == n
  {
    var sm, sn := Decimal.NatToString(m), Decimal.NatToString(n);
    assert (prefix + sm + suffix)[|prefix|..] == sm + suffix;
    assert (prefix + sn + suffix)[|prefix|..] == sn + suffix;
    DigitRunPrefix(sm, sn, suffix);
    Decimal.NatToStringInjective(m, n);
  }

  /** A run of digits followed by a non-digit is determined by the whole string. */
  lemma DigitRunPrefix(x: string, y: string, suffix: string)
    requires Decimal.AllDigits(x) && Decimal.AllDigits(y)
    requires |suffix| > 0 && !Decimal.IsDigit(suffix[0])
    requires x + suffix == y + suffix
    ensures x == y
  {
    var k := if |x| < |y| then |x| else |y|;
    assert (x + suffix)[k] == (y + suffix)[k];
    assert |x| == |y|;
    assert x == (x + suffix)[..|x|];
    assert y == (y + suffix)[..|y|];
  }

  // ----- Check-in time -----

  /** A local wall-clock time of day. */
  datatype ClockTime = ClockTime(hours: int, minutes: int)

  /**
   The local hours and minutes of a timestamp (milliseconds since the epoch)
   for a fixed offset from UTC in milliseconds, as `Date#getHours` and
   `Date#getMinutes` read them; the division rounds down, also before 1970.
   */
  function LocalClock(timestamp: int, offsetMs: int): (t: ClockTime)
    ensures 0 <= t.hours < 24 && 0 <= t.minutes < 60
  {
    var local := timestamp + offsetMs;
    ClockTime((local / 3_600_000) % 24, (local / 60_000) % 60)
  }

  /**
   The hours and minutes are the whole hours and the remaining whole minutes
   of the milliseconds elapsed since local midnight.
   */
  lemma LocalClockSplitsTheDay(timestamp: int, offsetMs: int)
    ensures var t := LocalClock(timestamp, offsetMs);
            (timestamp + offsetMs) % 86_400_000
              == t.hours * 3_600_000 + t.minutes * 60_000 + (timestamp + offsetMs) % 60_000
  {
  }

  /** A time of day on the 12-hour clock. */
  datatype TwelveHour = TwelveHour(hour: int, minutes: int, pm: bool)

  /** The hour of the 24-hour clock a 12-hour reading stands for. */
  function TwentyFourHour(t: TwelveHour): int {
    (if t.hour == 12 then 0 else t.hour) + (if t.pm then 12 else 0)
  }

  /**
   `hours % 12 || 12` with "PM" from noon on: the display hour is in 1..12
   and the reading converts back to the same 24-hour time.
   */
  function ToTwelveHour(t: ClockTime): (r: TwelveHour)
    requires 0 <= t.hours < 24
    ensures 1 <= r.hour <= 12
    ensures r.pm <==> t.hours >= 12
    ensures r.minutes == t.minutes
    ensures TwentyFourHour(r) == t.hours
  {
    var h := t.hours % 12;
    TwelveHour(if h == 0 then 12 else h, t.minutes, t.hours >= 12)
  }

  /** The displayed text of a 12-hour reading: the hour unpadded, the minutes padded to two digits. */
  function RenderTime(shown: TwelveHour): string
    requires 1 <= shown.hour <= 12 && 0 <= shown.minutes < 60
  {
    Decimal.NatToString(shown.hour) + ":" + Decimal.TwoDigits(shown.minutes) + " "
      + (if shown.pm then "PM" else "AM")
  }

  /** `formatCheckInTime`: the local time of a check-in as `H:MM AM` or `H:MM PM`. */
  function FormatCheckInTime(timestamp: int, offsetMs: int): string {
    RenderTime(ToTwelveHour(LocalClock(timestamp, offsetMs)))
  }

  /**
   `text` reads back as the local time `clock`: seven or eight characters,
   the 12-hour hour before the colon, two minute digits, then "AM" before noon
   and "PM" from noon on.
   */
  predicate ShowsClock(text: string, clock: ClockTime) {
    && 7 <= |text| <= 8
    && text[|text| - 2..] == (if clock.hours >= 12 then "PM" else "AM")
    && text[|text| - 6] == ':' && text[|text| - 3] == ' '
    && Decimal.AllDigits(text[..|text| - 6])
    && 1 <= Decimal.ParseDigits(text[..|text| - 6]) <= 12
    && TwentyFourHour(TwelveHour(Decimal.ParseDigits(text[..|text| - 6]), clock.minutes,
                                 clock.hours >= 12)) == clock.hours
    && Decimal.AllDigits(text[|text| - 5..|text| - 3])
    && Decimal.ParseDigits(text[|text| - 5..|text| - 3]) == clock.minutes
  }

  /** The formatted check-in time reads back to the local clock of the timestamp. */
  lemma FormatCheckInTimeReadsBack(timestamp: int, offsetMs: int)
    ensures ShowsClock(FormatCheckInTime(timestamp, offsetMs), LocalClock(timestamp, offsetMs))
  {
    ClockReadsBack(LocalClock(timestamp, offsetMs));
  }

  lemma ClockReadsBack(clock: ClockTime)
    requires 0 <= clock.hours < 24 && 0 <= clock.minutes < 60
    ensures ShowsClock(RenderTime(ToTwelveHour(clock)), clock)
  {
    var shown := ToTwelveHour(clock);
    var hourText, minuteText := Decimal.NatToString(shown.hour), Decimal.TwoDigits(shown.minutes);
    var meridiem := if shown.pm then "PM" else "AM";
    var text := RenderTime(shown);
    assert text == hourText + ":" + minuteText + " " + meridiem;
    HourText(shown.hour);
    PartsShowClock(text, hourText, minuteText, meridiem, shown, clock);
  }

  /** Text assembled from the fields of the 12-hour reading of `clock` reads back as `clock`. */
  lemma PartsShowClock(text: string, hourText: string, minuteText: string, meridiem: string,
                       shown: TwelveHour, clock: ClockTime)
    requires 0 <= clock.hours < 24 && 0 <= clock.minutes < 60
    requires shown == ToTwelveHour(clock)
    requires text == hourText + ":" + minuteText + " " + meridiem
    requires 1 <= |hourText| <= 2 && Decimal.AllDigits(hourText) && Decimal.ParseDigits(hourText) == shown.hour
    requires |minuteText| == 2 && Decimal.AllDigits(minuteText) && Decimal.ParseDigits(minuteText) == shown.minutes
    requires meridiem == if shown.pm then "PM" else "AM"
    ensures ShowsClock(text, clock)
  {
    LayoutReadsBack(hourText, minuteText, meridiem);
    TwelveHourShowsClock(shown, clock, text);
  }

  /** The unpadded hour of the 12-hour clock has one or two digits and reads back. */
  lemma HourText(hour: nat)
    requires 1 <= hour <= 12
    ensures 1 <= |Decimal.NatToString(hour)| <= 2
    ensures Decimal.ParseDigits(Decimal.NatToString(hour)) == hour
  {
    if hour < 10 {
      Decimal.NatToStringLength(hour, 1);
    } else {
      Decimal.NatToStringLength(hour, 2);
    }
    Decimal.ParseNatToString(hour);
  }

  /** The fields of `H:MM AM` are found again at fixed distances from the end. */
  lemma LayoutReadsBack(hourText: string, minuteText: string, meridiem: string)
    requires 1 <= |hourText| <= 2 && |minuteText| == 2 && |meridiem| == 2
    ensures var text := hourText + ":" + minuteText + " " + meridiem;
            && 7 <= |text| <= 8
            && text[|text| - 2..] == meridiem
            && text[|text| - 6] == ':' && text[|text| - 3] == ' '
            && text[..|text| - 6] == hourText
            && text[|text| - 5..|text| - 3] == minuteText
  {
  }

  lemma TwelveHourShowsClock(shown: TwelveHour, clock: ClockTime, text: string)
    requires 0 <= clock.hours < 24 && 0 <= clock.minutes < 60
    requires shown == ToTwelveHour(clock)
    requires && 7 <= |text| <= 8
             && text[|text| - 2..] == (if shown.pm then "PM" else "AM")
             && text[|text| - 6] == ':' && text[|text| - 3] == ' '
             && Decimal.AllDigits(text[..|text| - 6])
             && Decimal.ParseDigits(text[..|text| - 6]) == shown.hour
             && Decimal.AllDigits(text[|text| - 5..|text| - 3])
             && Decimal.ParseDigits(text[|text| - 5..|text| - 3]) == shown.minutes
    ensures ShowsClock(text, clock)
  {
  }

  // ----- Monthly completion rate -----

  /** The completed check-ins dated in the given month. */
  function CompletedInMonth(checkIns: map<Date, DailyCheckIn>, year: int, month: int): set<Date> {
    set d | d in checkIns && d.year == year && d.month == month && checkIns[d].completed
  }

  /** The days of a month, first to `n`th. */
  function MonthDays(year: int, month: int, n: nat): (days: set<Date>)
    requires 1 <= month <= 12 && n <= DaysInMonth(year, month)
    ensures |days| == n
    ensures forall d :: d in days <==> d.year == year && d.month == month && 1 <= d.day <= n
  {
    if n == 0 then {}
    else
      var day: Date := CalendarDate(year, month, n);
      var earlier := MonthDays(year, month, n - 1);
      assert day !in earlier;
      earlier + {day}
  }

  /** The two numbers of the monthly rate. */
  datatype MonthlyRate = MonthlyRate(completedDays: nat, daysInMonth: nat)

  /**
   The count of completed days this month against the length of the month:
   the count never exceeds the length, which is 28 to 31.
   */
  function MonthlyRateOf(checkIns: map<Date, DailyCheckIn>, today: Date): (r: MonthlyRate)
    ensures r.completedDays == |CompletedInMonth(checkIns, today.year, today.month)|
    ensures r.daysInMonth == DaysInMonth(today.year, today.month)
    ensures 28 <= r.daysInMonth <= 31
    ensures r.completedDays <= r.daysInMonth
  {
    var completed := CompletedInMonth(checkIns, today.year, today.month);
    var length := DaysInMonth(today.year, today.month);
    var wholeMonth := MonthDays(today.year, today.month, length);
    assert completed <= wholeMonth;
    SubsetCardinality(completed, wholeMonth);
    MonthlyRate(|completed|, length)
  }

  /** `getMonthlyCompletionRate`: `"<completed>/<days> days this month"`. */
  function MonthlyCompletionRate(checkIns: map<Date, DailyCheckIn>, today: Date): string {
    var rate := MonthlyRateOf(checkIns, today);
    Decimal.NatToString(rate.completedDays) + "/" + Decimal.NatToString(rate.daysInMonth) + " days this month"
  }

  /**
   `text` reads back as `rate` with the slash at `slash`: the digits before
   the slash are the completed days, those after it up to " days this month"
   the length of the month.
   */
  predicate ShowsRateAt(text: string, slash: int, rate: MonthlyRate) {
    && 0 < slash < |text| - 16
    && text[slash] == '/'
    && Decimal.AllDigits(text[..slash])
    && Decimal.ParseDigits(text[..slash]) == rate.completedDays
    && Decimal.AllDigits(text[slash + 1..|text| - 16])
    && Decimal.ParseDigits(text[slash + 1..|text| - 16]) == rate.daysInMonth
    && text[|text| - 16..] == " days this month"
  }

  /** The rate text reads back to the two numbers of the monthly rate. */
  lemma MonthlyCompletionRateReadsBack(checkIns: map<Date, DailyCheckIn>, today: Date)
    ensures exists slash :: ShowsRateAt(MonthlyCompletionRate(checkIns, today), slash, MonthlyRateOf(checkIns, today))
  {
    var rate := MonthlyRateOf(checkIns, today);
    var completedText := Decimal.NatToString(rate.completedDays);
    var lengthText := Decimal.NatToString(rate.daysInMonth);
    var text := MonthlyCompletionRate(checkIns, today);
    assert text == completedText + "/" + lengthText + " days this month";
    Decimal.ParseNatToString(rate.completedDays);
    Decimal.ParseNatToString(rate.daysInMonth);
    RateReadsBack(completedText, lengthText, text, rate);
  }

  lemma RateReadsBack(completedText: string, lengthText: string, text: string, rate: MonthlyRate)
    requires Decimal.AllDigits(completedText) && 1 <= |completedText|
    requires Decimal.AllDigits(lengthText) && 1 <= |lengthText|
    requires Decimal.ParseDigits(completedText) == rate.completedDays
    requires Decimal.ParseDigits(lengthText) == rate.daysInMonth
    requires text == completedText + "/" + lengthText + " days this month"
    ensures ShowsRateAt(text, |completedText|, rate)
  {
    assert text[..|completedText|] == completedText;
    assert text[|completedText| + 1..|text| - 16] == lengthText;
  }

  /**
   When, of this month's days, exactly the first `n` are completed, the rate
   is `n` of the month's length, whatever the record holds for other months
   and whatever uncompleted entries it has.
   */
  lemma FirstDaysCompleted(checkIns: map<Date, DailyCheckIn>, today: Date, n: nat)
    requires n <= DaysInMonth(today.year, today.month)
    requires forall d: Date :: d.year == today.year && d.month == today.month ==>
               (d in checkIns && checkIns[d].completed <==> 1 <= d.day <= n)
    ensures MonthlyRateOf(checkIns, today) == MonthlyRate(n, DaysInMonth(today.year, today.month))
  {
    var days := MonthDays(today.year, today.month, n);
    assert CompletedInMonth(checkIns, today.year, today.month) == days;
  }

  /** Ten completed days in a 30-day month (June 2025) read "10/30 days this month". */
  lemma MonthlyRateExample(checkIns: map<Date, DailyCheckIn>)
    requires forall d: Date :: d.year == 2025 && d.month == 6 ==>
               (d in checkIns && checkIns[d].completed <==> 1 <= d.day <= 10)
    ensures MonthlyRateOf(checkIns, CalendarDate(2025, 6, 20)) == MonthlyRate(10, 30)
    ensures MonthlyCompletionRate(checkIns, CalendarDate(2025, 6, 20)) == "10/30 days this month"
  {
    FirstDaysCompleted(checkIns, CalendarDate(2025, 6, 20), 10);
    assert Decimal.NatToString(10) == "10";
    assert Decimal.NatToString(30) == "30";
  }
}
