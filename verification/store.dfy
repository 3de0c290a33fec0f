/**
 The activity store that screens read: the activity record, the "checked in
 today" flag and the loading flag, with the three operations that change them.
 Each asynchronous operation is one step from state to state. The result of
 reading storage and the backend a save goes to are parameters, and so is
 `today`.
 */
module ActivityStore {
  import opened Calendar
  import opened Activity
  import opened StreakCalculator
  import Storage

  datatype StoreState = StoreState(activity: UserActivity, checkedInToday: bool, isLoading: bool)

  /** The state before the first load has finished. */
  const InitialState := StoreState(InitialUserActivity, false, true)

  /** What awaiting the stored activity produced: a record, or an exception. */
  datatype Fetched = Loaded(data: UserActivity) | Threw

  /** The cached streak agrees with the check-ins and the flag with today's entry. */
  predicate Consistent(s: StoreState, today: Date) {
    && s.activity.streakData.currentStreak == CalculateStreak(s.activity.checkIns, today)
    && s.checkedInToday == HasCheckedInToday(s.activity, today)
  }

  /**
   The body of `loadActivityData` once the stored record has been awaited:
   the current streak is recomputed from the check-ins instead of trusting
   the stored one, the flag is set from the recomputed record, and the
   loading flag is cleared whatever happened. An exception leaves the
   record and the flag as they were.
   */
  function ApplyLoad(s: StoreState, fetched: Fetched, today: Date): (r: StoreState)
    ensures !r.isLoading
    ensures fetched.Threw? ==> r.activity == s.activity && r.checkedInToday == s.checkedInToday
    ensures fetched.Loaded? ==>
      && r.activity.checkIns == fetched.data.checkIns
      && r.activity.streakData.currentStreak == CalculateStreak(fetched.data.checkIns, today)
      && r.activity.streakData.longestStreak == fetched.data.streakData.longestStreak
      && r.activity.streakData.lastCheckInDate == fetched.data.streakData.lastCheckInDate
      && r.activity.streakData.totalCheckIns == fetched.data.streakData.totalCheckIns
      && (r.checkedInToday <==> today in CompletedDates(fetched.data.checkIns))
      && Consistent(r, today)
  {
    match fetched
    case Threw => s.(isLoading := false)
    case Loaded(data) =>
      var currentStreak := CalculateStreak(data.checkIns, today);
      var updated := data.(streakData := data.streakData.(currentStreak := currentStreak));
      StoreState(updated, HasCheckedInToday(updated, today), false)
  }

  /**
   `loadActivityData` reading from the device store. Reading storage never
   throws (a failure is already replaced by the initial record), so the
   result is always consistent, and a failed or empty read leaves the store
   showing the initial record.
   */
  function LoadActivityData(s: StoreState, b: Storage.Backend, today: Date): (r: StoreState)
    ensures !r.isLoading
    ensures Consistent(r, today)
    ensures r.activity.checkIns == Storage.LoadActivity(b).checkIns
    ensures b.readFails ==> r == StoreState(InitialUserActivity, false, false)
  {
    var r := ApplyLoad(s, Loaded(Storage.LoadActivity(b)), today);
    if b.readFails then
      NoCompletedMeansNoStreak(InitialUserActivity.checkIns, today);
      r
    else r
  }

  /** `refreshActivity` is a fresh load, so the streak and the flag follow the `today` it is given. */
  function RefreshActivity(s: StoreState, b: Storage.Backend, today: Date): (r: StoreState)
    ensures !r.isLoading
    ensures r.activity.streakData.currentStreak == CalculateStreak(Storage.LoadActivity(b).checkIns, today)
    ensures r.checkedInToday <==> today in CompletedDates(Storage.LoadActivity(b).checkIns)
  {
    LoadActivityData(s, b, today)
  }

  /** How a call to `checkIn` ended for its caller: returned early, or tried to save with the given result. */
  datatype CheckInOutcome = AlreadyCheckedIn | Attempted(save: Storage.SaveOutcome)

  /** The state after `checkIn`, the store after it, the record it tried to save, and how it ended. */
  datatype CheckInStep = CheckInStep(
    state: StoreState,
    backend: Storage.Backend,
    saved: Option<UserActivity>,
    outcome: CheckInOutcome)

  /**
   `checkIn`: a no-op (no state change, no save) when today's entry is
   already in the record; otherwise the record becomes `processCheckIn` of
   it, the flag is set, and exactly that record is saved. The in-memory
   update happens before the save, so it stands when the save is rethrown.
   */
  function CheckIn(s: StoreState, b: Storage.Backend, today: Date, now: int): (r: CheckInStep)
    ensures HasCheckedInToday(s.activity, today) ==> r == CheckInStep(s, b, None, AlreadyCheckedIn)
    ensures !HasCheckedInToday(s.activity, today) ==>
      && r.state == StoreState(ProcessCheckIn(s.activity, today, now), true, s.isLoading)
      && r.saved == Some(r.state.activity)
      && r.outcome.Attempted?
      && (r.outcome.save == Storage.Rethrown <==> b.writeFails)
      && (b.writeFails ==> r.backend == b)
      && (!b.writeFails ==> Storage.LoadActivity(r.backend.(readFails := false)) == r.state.activity)
  {
    if HasCheckedInToday(s.activity, today) then CheckInStep(s, b, None, AlreadyCheckedIn)
    else
      var updated := ProcessCheckIn(s.activity, today, now);
      var (b', saveOutcome) := Storage.SaveActivity(b, updated);
      var step := CheckInStep(
        StoreState(updated, true, s.isLoading),
        b',
        Some(updated),
        Attempted(saveOutcome));
      if b.writeFails then step
      else
        Storage.ActivityRoundTrip(b.(readFails := false), updated);
        assert b'.(readFails := false) == Storage.SaveActivity(b.(readFails := false), updated).0;
        step
  }

  /** A check-in keeps the store consistent, whether or not its save succeeds. */
  lemma CheckInPreservesConsistency(s: StoreState, b: Storage.Backend, today: Date, now: int)
    requires Consistent(s, today)
    ensures Consistent(CheckIn(s, b, today, now).state, today)
  {
    if !HasCheckedInToday(s.activity, today) {
      var r := ProcessCheckIn(s.activity, today, now);
      assert r.streakData.currentStreak == CalculateStreak(r.checkIns, today);
    }
  }

  /**
   The streak the store shows after a check-in is the one it showed before
   plus one, which is what the check-in screen announces, provided the store
   was consistent and no completed entry is dated after today.
   */
  lemma CheckInShowsOneMore(s: StoreState, b: Storage.Backend, today: Date, now: int)
    requires Consistent(s, today)
    requires !s.checkedInToday
    requires !HasFutureEntry(s.activity.checkIns, today)
    ensures CheckIn(s, b, today, now).state.activity.streakData.currentStreak
         == s.activity.streakData.currentStreak + 1
    ensures CheckIn(s, b, today, now).state.checkedInToday
  {
    CheckInExtendsStreak(s.activity, today, now);
  }

  /**
   Without a reload the store keeps the day it was loaded on. A store loaded
   yesterday, showing a streak that yesterday had not extended, checks in
   today to a streak of 1, while the check-in screen announces the old streak
   plus one.
   */
  lemma StaleStoreAnnouncesWrongStreak(s: StoreState, b: Storage.Backend, today: Date, now: int)
    requires Consistent(s, Pred(today))
    requires !s.checkedInToday
    requires !HasFutureEntry(s.activity.checkIns, Pred(today))
    requires s.activity.streakData.currentStreak >= 1
    ensures CheckIn(s, b, today, now).state.activity.streakData.currentStreak
         == 1 != s.activity.streakData.currentStreak + 1
  {
    CheckInAfterGapRestarts(s.activity, today, now);
  }

  /** Once today is checked in, further check-ins that day change nothing and save nothing. */
  lemma SecondCheckInIsNoOp(s: StoreState, b: Storage.Backend, today: Date, now: int, later: int)
    ensures var first := CheckIn(s, b, today, now);
            CheckIn(first.state, first.backend, today, later)
              == CheckInStep(first.state, first.backend, None, AlreadyCheckedIn)
  {
  }

  /**
   After a saved check-in, loading again on the same day shows exactly what
   the store already shows.
   */
  lemma ReloadAfterCheckInAgrees(s: StoreState, b: Storage.Backend, today: Date, now: int, other: StoreState)
    requires !b.writeFails && !b.readFails
    requires !HasCheckedInToday(s.activity, today)
    ensures var step := CheckIn(s, b, today, now);
            var reloaded := LoadActivityData(other, step.backend, today);
            reloaded.activity == step.state.activity && reloaded.checkedInToday
  {
    var step := CheckIn(s, b, today, now);
    assert step.backend.(readFails := false) == step.backend;
    var data := step.state.activity;
    var reloaded := LoadActivityData(other, step.backend, today);
    assert reloaded.activity.streakData == data.streakData;
  }

  /**
   `checkIn` does not wait for the first load: checking in while the store
   still holds the initial record saves a record with today's entry alone,
   so whatever history was stored is gone at the next load.
   */
  lemma CheckInBeforeLoadDropsHistory(b: Storage.Backend, today: Date, now: int)
    requires !b.writeFails && !b.readFails
    ensures var step := CheckIn(InitialState, b, today, now);
            Storage.LoadActivity(step.backend).checkIns == map[today := DailyCheckIn(today, true, now)]
  {
    var step := CheckIn(InitialState, b, today, now);
    assert step.backend.(readFails := false) == step.backend;
  }
}
