/**
 The streak calculator of `src/utils/streakCalculator.ts`: whether today is
 checked in, the current streak, and the once-per-day check-in. The ambient
 clock is replaced by an injected `today` (a local calendar date) and `now`
 (milliseconds since the epoch); "yesterday" is `Pred(today)`.

 The streak is computed the way the application computes it (sort the
 completed dates newest first, walk them while each is the expected day) and
 proved equal to a reference definition: the length of the run of
 consecutive completed days that ends at the latest completed date, provided
 that date is today or yesterday, and zero otherwise.
 */
module StreakCalculator {
  import opened Calendar
  import opened Activity

  // ----- Reference definition -----

  /** `m` is the latest date of `c`. */
  predicate IsLatest(m: Date, c: set<Date>) {
    m in c && forall x :: x in c ==> !Before(m, x)
  }

  lemma {:induction false} LatestExists(c: set<Date>)
    requires c != {}
    ensures exists m :: IsLatest(m, c)
    decreases |c|
  {
    var y :| y in c;
    if c == {y} {
      assert IsLatest(y, c);
    } else {
      LatestExists(c - {y});
      var m :| IsLatest(m, c - {y});
      if Before(m, y) {
        forall x | x in c
          ensures !Before(y, x)
        {
          BeforeIsStrictTotalOrder(m, y, x);
        }
        assert IsLatest(y, c);
      } else {
        assert IsLatest(m, c);
      }
    }
  }

  /** The most recent date of a non-empty set of dates. */
  function Latest(c: set<Date>): (m: Date)
    requires c != {}
    ensures IsLatest(m, c)
  {
    LatestExists(c);
    var m :| IsLatest(m, c);
    m
  }

  /** The members of `c` on or before `d`. */
  function AtOrBefore(c: set<Date>, d: Date): set<Date> {
    set x | x in c && !Before(d, x)
  }

  lemma AtOrBeforeShrinks(c: set<Date>, d: Date)
    requires d in c
    ensures AtOrBefore(c, Pred(d)) <= AtOrBefore(c, d) - {d}
    ensures |AtOrBefore(c, Pred(d))| < |AtOrBefore(c, d)|
  {
    var smaller, larger := AtOrBefore(c, Pred(d)), AtOrBefore(c, d);
    assert smaller <= larger - {d};
    assert |larger - {d}| == |larger| - 1;
    SubsetCardinality(smaller, larger - {d});
  }

  /**
   The number of consecutive days of `c` counted back from `d`: `d`, the day
   before, and so on, stopping at the first day missing from `c`.
   */
  function RunBack(c: set<Date>, d: Date): (n: nat)
    decreases |AtOrBefore(c, d)|
  {
    if d in c then
      AtOrBeforeShrinks(c, d);
      1 + RunBack(c, Pred(d))
    else 0
  }

  lemma {:induction false} DaysBackShift(d: Date, k: nat)
    ensures DaysBack(Pred(d), k) == DaysBack(d, k + 1)
    decreases k
  {
    if k > 0 {
      DaysBackShift(d, k - 1);
    }
  }

  /** The run counted by `RunBack` is present and the day after it is missing. */
  lemma {:induction false} RunBackCovers(c: set<Date>, d: Date)
    ensures forall k :: 0 <= k < RunBack(c, d) ==> DaysBack(d, k) in c
    ensures DaysBack(d, RunBack(c, d)) !in c
    decreases |AtOrBefore(c, d)|
  {
    if d in c {
      AtOrBeforeShrinks(c, d);
      RunBackCovers(c, Pred(d));
      var n := RunBack(c, d);
      forall k | 0 <= k < n
        ensures DaysBack(d, k) in c
      {
        if k > 0 {
          DaysBackShift(d, k - 1);
        }
      }
      DaysBackShift(d, n - 1);
    }
  }

  /**
   `RunBack(c, d)` is exactly the length of the maximal run of consecutive
   days of `c` ending at `d`.
   */
  lemma RunBackIsMaximalRun(c: set<Date>, d: Date, n: nat)
    ensures RunBack(c, d) == n <==>
      (forall k :: 0 <= k < n ==> DaysBack(d, k) in c) && DaysBack(d, n) !in c
  {
    RunBackCovers(c, d);
  }

  /** A run never counts more days than there are at or before its end. */
  lemma {:induction false} RunBackBound(c: set<Date>, d: Date)
    ensures RunBack(c, d) <= |AtOrBefore(c, d)|
    ensures RunBack(c, d) <= |c|
    decreases |AtOrBefore(c, d)|
  {
    SubsetCardinality(AtOrBefore(c, d), c);
    if d in c {
      AtOrBeforeShrinks(c, d);
      RunBackBound(c, Pred(d));
    }
  }

  /** A run ending at `d` only looks at days on or before `d`. */
  lemma {:induction false} RunBackFrame(c: set<Date>, c': set<Date>, d: Date)
    requires forall x :: !Before(d, x) ==> (x in c <==> x in c')
    ensures RunBack(c, d) == RunBack(c', d)
    decreases |AtOrBefore(c, d)|
  {
    if d in c {
      AtOrBeforeShrinks(c, d);
      RunBackFrame(c, c', Pred(d));
    }
  }

  /**
   The streak the application means: the run ending at the latest completed
   date when that date is today or yesterday, zero otherwise.
   */
  function StreakSpec(c: set<Date>, today: Date): nat {
    if c == {} then 0
    else
      var latest := Latest(c);
      if latest == today || latest == Pred(today) then RunBack(c, latest) else 0
  }

  // ----- The application's algorithm -----

  function Elements(s: seq<Date>): set<Date> {
    set x | x in s
  }

  predicate Descending(s: seq<Date>) {
    forall i, j :: 0 <= i < j < |s| ==> Before(s[j], s[i])
  }

  /** The completed dates, newest first (the keys sorted in descending order). */
  function SortDescending(c: set<Date>): (s: seq<Date>)
    ensures |s| == |c|
    ensures forall x :: x in s <==> x in c
    ensures Descending(s)
    decreases |c|
  {
    if c == {} then []
    else
      var m := Latest(c);
      var rest := SortDescending(c - {m});
      PrependLatest(m, c, rest);
      [m] + rest
  }

  /** Putting the latest date in front of the sorted remainder keeps the order and the contents. */
  lemma PrependLatest(m: Date, c: set<Date>, rest: seq<Date>)
    requires IsLatest(m, c)
    requires |rest| == |c - {m}|
    requires forall x :: x in rest <==> x in c - {m}
    requires Descending(rest)
    ensures |[m] + rest| == |c|
    ensures forall x :: x in [m] + rest <==> x in c
    ensures Descending([m] + rest)
  {
    assert |c - {m}| == |c| - 1;
    forall j | 0 <= j < |rest|
      ensures Before(rest[j], m)
    {
      assert rest[j] in rest;
      assert rest[j] in c - {m};
      BeforeIsStrictTotalOrder(rest[j], m, m);
    }
  }

  /**
   The counting loop: walks `s` from position `i`, counting entries while each
   is the expected day and moving the expected day back by one; stops at the
   first entry that is not the expected day.
   */
  function Walk(s: seq<Date>, i: nat, expected: Date): (n: nat)
    requires i <= |s|
    requires Descending(s)
    requires forall j :: 0 <= j < i ==> Before(expected, s[j])
    requires forall j :: i <= j < |s| ==> !Before(expected, s[j])
    ensures n == RunBack(Elements(s), expected)
    decreases |s| - i
  {
    if i < |s| && s[i] == expected then
      WalkAdvances(s, i, expected);
      1 + Walk(s, i + 1, Pred(expected))
    else
      WalkStops(s, i, expected);
      0
  }

  lemma WalkAdvances(s: seq<Date>, i: nat, expected: Date)
    requires i < |s| && s[i] == expected
    requires Descending(s)
    requires forall j :: 0 <= j < i ==> Before(expected, s[j])
    ensures forall j :: 0 <= j < i + 1 ==> Before(Pred(expected), s[j])
    ensures forall j :: i + 1 <= j < |s| ==> !Before(Pred(expected), s[j])
  {
    forall j | i + 1 <= j < |s|
      ensures !Before(Pred(expected), s[j])
    {
      PredIsImmediate(expected, s[j]);
    }
  }

  lemma WalkStops(s: seq<Date>, i: nat, expected: Date)
    requires i <= |s|
    requires Descending(s)
    requires forall j :: 0 <= j < i ==> Before(expected, s[j])
    requires forall j :: i <= j < |s| ==> !Before(expected, s[j])
    requires i < |s| ==> s[i] != expected
    ensures expected !in Elements(s)
  {
    forall j | 0 <= j < |s|
      ensures s[j] != expected
    {
      if i < j {
        assert Before(s[j], s[i]);
      }
    }
  }

  /**
   `calculateStreak`: the current streak of a check-in map as of `today`.
   */
  function CalculateStreak(checkIns: map<Date, DailyCheckIn>, today: Date): (r: nat)
    ensures r == StreakSpec(CompletedDates(checkIns), today)
    ensures CompletedDates(checkIns) == {} ==> r == 0
    ensures r <= |CompletedDates(checkIns)|
  {
    var completed := CompletedDates(checkIns);
    var sorted := SortDescending(completed);
    if |sorted| == 0 then 0
    else
      var mostRecent := sorted[0];
      if mostRecent != today && mostRecent != Pred(today) then
        LatestIsFirst(sorted, completed);
        0
      else
        LatestIsFirst(sorted, completed);
        RunBackBound(completed, mostRecent);
        Walk(sorted, 0, mostRecent)
  }

  lemma LatestIsFirst(s: seq<Date>, c: set<Date>)
    requires |s| > 0 && Descending(s)
    requires forall x :: x in s <==> x in c
    ensures c != {} && Latest(c) == s[0]
    ensures Elements(s) == c
    ensures forall j :: 0 <= j < |s| ==> !Before(s[0], s[j])
  {
    assert s[0] in c;
    var m := Latest(c);
    assert m in s;
  }

  /** Whether a completed date lies after `today` (a clock moved backwards, say). */
  predicate HasFutureEntry(checkIns: map<Date, DailyCheckIn>, today: Date) {
    exists d :: d in CompletedDates(checkIns) && Before(today, d)
  }

  /** Adding an entry that is not completed, on a date not already completed, leaves the streak as it was. */
  lemma UncompletedEntryKeepsStreak(checkIns: map<Date, DailyCheckIn>, key: Date, entry: DailyCheckIn, today: Date)
    requires !entry.completed
    requires key !in CompletedDates(checkIns)
    ensures CalculateStreak(checkIns[key := entry], today) == CalculateStreak(checkIns, today)
  {
    UncompletedNeverCounts(checkIns, key, entry);
    assert CompletedDates(checkIns[key := entry]) == CompletedDates(checkIns);
  }

  /**
   Checking in today after a day without a check-in starts a new streak of 1,
   provided nothing is dated after yesterday.
   */
  lemma CheckInAfterGapRestarts(activity: UserActivity, today: Date, now: int)
    requires !HasCheckedInToday(activity, Pred(today))
    requires !HasFutureEntry(activity.checkIns, Pred(today))
    ensures !HasCheckedInToday(activity, today)
    ensures ProcessCheckIn(activity, today, now).streakData.currentStreak == 1
  {
    var yesterday := Pred(today);
    assert today !in CompletedDates(activity.checkIns);
    var r := ProcessCheckIn(activity, today, now);
    assert !HasFutureEntry(r.checkIns, today) by {
      forall d | d in CompletedDates(r.checkIns) && Before(today, d)
        ensures false
      {
        BeforeIsStrictTotalOrder(yesterday, today, d);
      }
    }
    assert DaysBack(today, 0) == today;
    assert DaysBack(today, 1) == yesterday;
    RunEndingTodayCounts(r.checkIns, today, 1);
  }

  /** Without any completed entry (an empty map included) the streak is zero. */
  lemma NoCompletedMeansNoStreak(checkIns: map<Date, DailyCheckIn>, today: Date)
    requires forall d :: d in checkIns ==> !checkIns[d].completed
    ensures CalculateStreak(checkIns, today) == 0
  {
    assert CompletedDates(checkIns) == {};
  }

  /**
   When the latest completed date is neither today nor yesterday the streak is
   zero, however long the run that ended there.
   */
  lemma StaleLatestBreaksStreak(checkIns: map<Date, DailyCheckIn>, today: Date, latest: Date)
    requires IsLatest(latest, CompletedDates(checkIns))
    requires latest != today && latest != Pred(today)
    ensures CalculateStreak(checkIns, today) == 0
  {
    var c := CompletedDates(checkIns);
    assert Latest(c) == latest by {
      BeforeIsStrictTotalOrder(Latest(c), latest, latest);
    }
  }

  /**
   Otherwise the streak is the length of the maximal run of consecutive
   completed days ending at the latest completed date: at least one, at most
   the number of completed dates, stopping at the first missing day.
   */
  lemma StreakIsRunFromLatest(checkIns: map<Date, DailyCheckIn>, today: Date, latest: Date, n: nat)
    requires IsLatest(latest, CompletedDates(checkIns))
    requires latest == today || latest == Pred(today)
    ensures CalculateStreak(checkIns, today) == n <==>
      (forall k :: 0 <= k < n ==> DaysBack(latest, k) in checkIns && checkIns[DaysBack(latest, k)].completed)
      && !(DaysBack(latest, n) in checkIns && checkIns[DaysBack(latest, n)].completed)
    ensures 1 <= CalculateStreak(checkIns, today) <= |CompletedDates(checkIns)|
  {
    var c := CompletedDates(checkIns);
    assert Latest(c) == latest by {
      BeforeIsStrictTotalOrder(Latest(c), latest, latest);
    }
    RunBackIsMaximalRun(c, latest, n);
    RunBackBound(c, latest);
  }

  /**
   With nothing dated after today, `n` consecutive completed days ending today
   preceded by a missed day give a streak of exactly `n`.
   */
  lemma RunEndingTodayCounts(checkIns: map<Date, DailyCheckIn>, today: Date, n: nat)
    requires 1 <= n
    requires !HasFutureEntry(checkIns, today)
    requires forall k :: 0 <= k < n ==> DaysBack(today, k) in CompletedDates(checkIns)
    requires DaysBack(today, n) !in CompletedDates(checkIns)
    ensures CalculateStreak(checkIns, today) == n
  {
    var c := CompletedDates(checkIns);
    assert DaysBack(today, 0) == today;
    assert IsLatest(today, c);
    StreakIsRunFromLatest(checkIns, today, today, n);
  }

  /**
   With nothing dated after the earlier day, the passing of time alone never
   lengthens a streak: recomputing it on a later day gives the same or zero.
   */
  lemma StreakNeverGrowsWithTime(checkIns: map<Date, DailyCheckIn>, earlier: Date, later: Date)
    requires !HasFutureEntry(checkIns, earlier)
    requires earlier == later || Before(earlier, later)
    ensures CalculateStreak(checkIns, later) <= CalculateStreak(checkIns, earlier)
    ensures CalculateStreak(checkIns, later) == 0
         || CalculateStreak(checkIns, later) == CalculateStreak(checkIns, earlier)
  {
    var c := CompletedDates(checkIns);
    if c != {} && earlier != later {
      var latest := Latest(c);
      assert !Before(earlier, latest);
      if latest == Pred(later) && earlier != latest {
        PredIsImmediate(later, earlier);
      }
    }
  }

  // ----- Check-in -----

  /** `hasCheckedInToday`: today has an entry and it is completed. */
  function HasCheckedInToday(activity: UserActivity, today: Date): (b: bool)
    ensures b <==> today in CompletedDates(activity.checkIns)
  {
    today in activity.checkIns && activity.checkIns[today].completed
  }

  /**
   `processCheckIn`: at most one check-in per day. If today is already
   checked in the record is returned unchanged; otherwise a completed entry
   stamped `now` is filed under today, the streak is recomputed over the
   whole map, the longest streak keeps its maximum, the last date becomes
   today and the total goes up by one.
   */
  function ProcessCheckIn(activity: UserActivity, today: Date, now: int): (r: UserActivity)
    ensures HasCheckedInToday(activity, today) ==> r == activity
    ensures HasCheckedInToday(r, today)
    ensures !HasCheckedInToday(activity, today) ==>
      && today in r.checkIns
      && r.checkIns[today] == DailyCheckIn(today, true, now)
      && (forall d :: d != today ==> (d in r.checkIns <==> d in activity.checkIns))
      && (forall d :: d != today && d in activity.checkIns ==> r.checkIns[d] == activity.checkIns[d])
      && CompletedDates(r.checkIns) == CompletedDates(activity.checkIns) + {today}
      && r.streakData.totalCheckIns == activity.streakData.totalCheckIns + 1
      && r.streakData.lastCheckInDate == Some(today)
      && r.streakData.currentStreak == StreakSpec(CompletedDates(r.checkIns), today)
      && r.streakData.longestStreak >= activity.streakData.longestStreak
      && r.streakData.longestStreak >= r.streakData.currentStreak
      && (r.streakData.longestStreak == activity.streakData.longestStreak
          || r.streakData.longestStreak == r.streakData.currentStreak)
    ensures r.streakData.longestStreak >= activity.streakData.longestStreak
  {
    if HasCheckedInToday(activity, today) then activity
    else
      var updatedCheckIns := activity.checkIns[today := DailyCheckIn(today, true, now)];
      AddCompleted(activity.checkIns, DailyCheckIn(today, true, now));
      var currentStreak := CalculateStreak(updatedCheckIns, today);
      var longestStreak :=
        if activity.streakData.longestStreak < currentStreak then currentStreak
        else activity.streakData.longestStreak;
      UserActivity(
        updatedCheckIns,
        StreakData(currentStreak, longestStreak, Some(today), activity.streakData.totalCheckIns + 1))
  }

  /** Recording a completed entry adds its date to the completed dates and nothing else. */
  lemma AddCompleted(checkIns: map<Date, DailyCheckIn>, entry: DailyCheckIn)
    requires entry.completed
    ensures CompletedDates(checkIns[entry.date := entry]) == CompletedDates(checkIns) + {entry.date}
  {
  }

  /** Checking in twice on one day is the same as checking in once. */
  lemma ProcessCheckInIdempotent(activity: UserActivity, today: Date, now: int, later: int)
    ensures ProcessCheckIn(ProcessCheckIn(activity, today, now), today, later)
         == ProcessCheckIn(activity, today, now)
  {
  }

  /**
   A check-in that is not a no-op extends the streak by exactly one day, as
   the check-in screen assumes, provided nothing is dated after today.
   */
  lemma CheckInExtendsStreak(activity: UserActivity, today: Date, now: int)
    requires !HasCheckedInToday(activity, today)
    requires !HasFutureEntry(activity.checkIns, today)
    ensures ProcessCheckIn(activity, today, now).streakData.currentStreak
         == CalculateStreak(activity.checkIns, today) + 1
  {
    var c := CompletedDates(activity.checkIns);
    var r := ProcessCheckIn(activity, today, now);
    var c' := CompletedDates(r.checkIns);
    assert c' == c + {today};
    assert IsLatest(today, c');
    assert Latest(c') == today by {
      BeforeIsStrictTotalOrder(Latest(c'), today, today);
    }
    assert RunBack(c', today) == 1 + RunBack(c', Pred(today));
    RunBackFrame(c, c', Pred(today));
    var yesterday := Pred(today);
    if c != {} {
      var latest := Latest(c);
      assert latest != today;
      if latest != yesterday {
        assert Before(latest, yesterday) by {
          PredIsImmediate(today, latest);
        }
        assert yesterday !in c;
      }
    }
  }

  /**
   The "one more day" identity needs the no-future-entry condition: with a
   completed entry dated after today the streak is zero before and after.
   */
  lemma FutureEntrySuppressesStreak(activity: UserActivity, today: Date, now: int)
    requires HasFutureEntry(activity.checkIns, today)
    ensures CalculateStreak(activity.checkIns, today) == 0
    ensures !HasCheckedInToday(activity, today) ==>
              ProcessCheckIn(activity, today, now).streakData.currentStreak == 0
  {
    var c := CompletedDates(activity.checkIns);
    var d :| d in c && Before(today, d);
    var latest := Latest(c);
    BeforeIsStrictTotalOrder(d, latest, latest);
    BeforeIsStrictTotalOrder(today, d, latest);
    LaterThanToday(today, latest);
    StaleLatestBreaksStreak(activity.checkIns, today, latest);
    if !HasCheckedInToday(activity, today) {
      var r := ProcessCheckIn(activity, today, now);
      assert IsLatest(latest, CompletedDates(r.checkIns)) by {
        BeforeIsStrictTotalOrder(today, latest, latest);
      }
      StaleLatestBreaksStreak(r.checkIns, today, latest);
    }
  }

  /** A date after today is neither today nor yesterday. */
  lemma LaterThanToday(today: Date, d: Date)
    requires Before(today, d)
    ensures d != today && d != Pred(today)
  {
    BeforeIsStrictTotalOrder(today, d, d);
    if d == Pred(today) {
      PredIsImmediate(today, d);
      BeforeIsStrictTotalOrder(d, today, d);
    }
  }

  /** The first check-in of a fresh installation. */
  lemma FirstCheckIn(today: Date, now: int)
    ensures var r := ProcessCheckIn(InitialUserActivity, today, now);
            r.streakData == StreakData(1, 1, Some(today), 1)
  {
    var r := ProcessCheckIn(InitialUserActivity, today, now);
    var c := CompletedDates(r.checkIns);
    assert c == {today};
    assert Latest(c) == today;
    assert Pred(today) !in c;
  }

  /**
   Two completed days, 2025-06-01 and 2025-06-02: the streak is 2 on
   2025-06-03 (today need not be checked in yet) and 0 on 2025-06-04 (a whole
   day was missed).
   */
  lemma TwoDayScenario()
    ensures var d1, d2 := CalendarDate(2025, 6, 1), CalendarDate(2025, 6, 2);
            var checkIns := map[d1 := DailyCheckIn(d1, true, 0), d2 := DailyCheckIn(d2, true, 0)];
            && CalculateStreak(checkIns, CalendarDate(2025, 6, 3)) == 2
            && CalculateStreak(checkIns, CalendarDate(2025, 6, 4)) == 0
  {
    var d1, d2 := CalendarDate(2025, 6, 1), CalendarDate(2025, 6, 2);
    var checkIns := map[d1 := DailyCheckIn(d1, true, 0), d2 := DailyCheckIn(d2, true, 0)];
    var c := CompletedDates(checkIns);
    assert c == {d1, d2};
    assert IsLatest(d2, c);
    assert Latest(c) == d2 by {
      BeforeIsStrictTotalOrder(Latest(c), d2, d2);
    }
    assert Pred(d2) == d1;
    assert Pred(d1) == CalendarDate(2025, 5, 31);
    assert RunBack(c, CalendarDate(2025, 5, 31)) == 0;
    assert RunBack(c, d1) == 1;
    assert RunBack(c, d2) == 2;
    assert Pred(CalendarDate(2025, 6, 3)) == d2;
  }

  // ----- Sequences of check-ins -----

  /** Applying `processCheckIn` once per (day, time) pair, in order. */
  function CheckInAll(activity: UserActivity, events: seq<(Date, int)>): UserActivity
    decreases |events|
  {
    if events == [] then activity
    else CheckInAll(ProcessCheckIn(activity, events[0].0, events[0].1), events[1..])
  }

  /**
   Over any sequence of check-ins the longest streak never decreases and the
   total grows by at most one per event.
   */
  lemma {:induction false} CheckInsMonotone(activity: UserActivity, events: seq<(Date, int)>)
    ensures CheckInAll(activity, events).streakData.longestStreak >= activity.streakData.longestStreak
    ensures activity.streakData.totalCheckIns
         <= CheckInAll(activity, events).streakData.totalCheckIns
         <= activity.streakData.totalCheckIns + |events|
    decreases |events|
  {
    if events != [] {
      CheckInsMonotone(ProcessCheckIn(activity, events[0].0, events[0].1), events[1..]);
    }
  }
}
