/**
 The activity record the check-in engine owns: one `DailyCheckIn` per
 calendar date, the cached `StreakData` summary, and the empty record a fresh
 installation starts from.
 */
module Activity {
  import opened Calendar

  datatype Option<T> = None | Some(value: T)

  /** One day's check-in; `timestamp` is milliseconds since the epoch. */
  datatype DailyCheckIn = DailyCheckIn(date: Date, completed: bool, timestamp: int)

  /**
   The cached summary. `lastCheckInDate` is `None` where the application
   stores `null`.
   */
  datatype StreakData = StreakData(
    currentStreak: nat,
    longestStreak: nat,
    lastCheckInDate: Option<Date>,
    totalCheckIns: nat)

  datatype UserActivity = UserActivity(checkIns: map<Date, DailyCheckIn>, streakData: StreakData)

  /** `initialUserActivity`: no check-ins, zero counters, no last date. */
  const InitialStreakData := StreakData(0, 0, None, 0)
  const InitialUserActivity := UserActivity(map[], InitialStreakData)

  /** The dates whose check-in is marked completed; only these count anywhere. */
  function CompletedDates(checkIns: map<Date, DailyCheckIn>): (c: set<Date>)
    ensures forall d :: d in c <==> d in checkIns && checkIns[d].completed
  {
    set d | d in checkIns && checkIns[d].completed
  }

  /**
   Storing an entry that is not completed takes its date out of the completed
   dates and changes nothing else: such entries never count.
   */
  lemma UncompletedNeverCounts(checkIns: map<Date, DailyCheckIn>, key: Date, entry: DailyCheckIn)
    requires !entry.completed
    ensures CompletedDates(checkIns[key := entry]) == CompletedDates(checkIns) - {key}
  {
  }

  /** A subset is no larger than the set containing it. */
  lemma SubsetCardinality<T>(a: set<T>, b: set<T>)
    requires a <= b
    ensures |a| <= |b|
  {
    assert b == a + (b - a);
  }
}
