# Radiant check-in and streak engine, in Dafny

This project models the daily check-in engine of the Radiant journaling app
and proves properties about it. The engine has three parts:

- **The streak calculator** (`src/utils/streakCalculator.ts`). It decides
  whether today is checked in, computes the current streak, and records at
  most one check-in per day. It also holds the display helpers: milestone
  detection, the insight message, the 12-hour check-in time, and the monthly
  completion rate.
- **The activity store** (`src/context/ActivityContext.tsx`). It loads the
  record and recomputes the streak, checks in and saves, and refreshes.
- **The persisted-shape defaulting** (`src/utils/storage.ts`). It merges a
  stored blob over the initial activity record or journal, and rethrows
  failed writes.

How the model stands in for the running app:

- The ambient clock is injected. `today` is a local calendar date, and
  yesterday is `Pred(today)`. `now` is a timestamp in milliseconds.
- Dates are valid proleptic Gregorian `(year, month, day)` triples. They are
  ordered chronologically.
- The app files check-ins under `YYYY-MM-DD` keys and sorts the keys in
  descending string order. `Calendar.KeyOrderIsDateOrder` proves that this
  string order equals date order for four-digit years. The model can
  therefore key check-ins by date and sort dates.
- The streak algorithm is modelled as the app runs it: sort the completed
  dates newest first, then walk them while each one is the expected day.
  It is proved equal to an independent reference, `StreakSpec`. The
  reference is the length of the run of consecutive completed days ending at
  the latest completed date, provided that date is today or yesterday, and 0
  otherwise.
- Storage is a map from key to parsed blob. A field of a blob is either
  present or missing. Read and write failures are flags of the backend.
- Each asynchronous store operation is one step from one state to the next.

Files:

| file | module |
|---|---|
| `decimal.dfy` | `Decimal`: numerals, `padStart`, and parsing them back |
| `calendar.dfy` | `Calendar`: dates, `Pred`, month lengths, date keys |
| `activity.dfy` | `Activity`: `DailyCheckIn`, `StreakData`, `UserActivity`, the initial record |
| `streak.dfy` | `StreakCalculator`: `calculateStreak`, `hasCheckedInToday`, `processCheckIn` |
| `display.dfy` | `CheckInDisplay`: milestones, insight message, check-in time, monthly rate |
| `storage.dfy` | `Storage`: `loadActivity`, `saveActivity`, `loadJournal`, `saveJournal` |
| `store.dfy` | `ActivityStore`: `loadActivityData`, `checkIn`, `refreshActivity` |

### Behaviour worth knowing

These behaviours of the code come out of the proofs:

- **The "+1" identity needs one extra condition.** The check-in screen
  announces `previousStreak + 1`. That holds only if nothing is dated after
  today, which `StreakCalculator.CheckInExtendsStreak` requires.
  `StreakCalculator.FutureEntrySuppressesStreak` shows that whenever a
  completed entry is dated after today, the streak is 0 and stays 0 after
  checking in. Such an entry can appear, for
  example, after the device clock moves backwards.
- **The store must have been loaded on the same day.** The identity also
  needs the store to agree with `today` (`ActivityStore.CheckInShowsOneMore`
  requires `Consistent`). No screen calls `refreshActivity`. So a store
  loaded on an earlier day keeps that day's streak, and the screen can then
  announce a number the new record does not have:
  `ActivityStore.StaleStoreAnnouncesWrongStreak` shows a store loaded
  yesterday, with a streak that yesterday did not extend, checking in today
  to a streak of 1 while the screen announces the old streak plus one.
- **A check-in before the first load loses history.** `checkIn` does not
  wait for the first load to finish.
  `ActivityStore.CheckInBeforeLoadDropsHistory` shows the consequence: a
  check-in made while the store still holds the initial record saves a record
  holding today's entry alone, and the stored history is gone at the next
  load.
- **Vision boards are replaced, not merged.** A stored journal whose vision
  boards lack a category keeps lacking it after loading, because the boards
  are replaced as a whole (`Storage.VisionBoardsReplacedWhole`).

## Model

| member | source | states |
|---|---|---|
| Calendar.DaysInMonth | src/utils/streakCalculator.ts:188 | The days in a month are 28 to 31; February has 29 exactly in leap years, every other month at least 30 |
| Calendar.Pred | src/utils/streakCalculator.ts:17-24 | Yesterday is strictly earlier than the day it is computed from, across month and year boundaries |
| Calendar.PredIsImmediate | src/utils/streakCalculator.ts:17-24 | No date lies strictly between yesterday and today |
| Calendar.KeyOrderIsDateOrder | src/utils/streakCalculator.ts:39-41 | For four-digit years, descending string order of the `YYYY-MM-DD` keys is newest-first date order, in both directions |
| Calendar.KeyInjective | src/utils/streakCalculator.ts:6-12 | Different dates get different keys, for every year, so one key never holds two days |
| Decimal.ParseNatToString | src/utils/streakCalculator.ts:199 | The decimal text of a number reads back to that number |
| Decimal.TwoDigits | src/utils/streakCalculator.ts:174 | `padStart(2, '0')` of a number below 100 is two digits that read back to the number |
| Activity.UncompletedNeverCounts | src/utils/streakCalculator.ts:39-40 | Storing an entry that is not completed removes its date from the dates that count and changes no other date |
| StreakCalculator.UncompletedEntryKeepsStreak | src/utils/streakCalculator.ts:37-45 | Adding an entry that is not completed, on a day not already completed, never changes the streak |
| StreakCalculator.SortDescending | src/utils/streakCalculator.ts:39-41 | The sorted completed dates contain each completed date exactly once, strictly newest first |
| StreakCalculator.Walk | src/utils/streakCalculator.ts:55-78 | The counting loop, which stops at the first gap, counts exactly the run of consecutive days ending at the expected day |
| StreakCalculator.RunBackIsMaximalRun | src/utils/streakCalculator.ts:55-78 | The reference run length is n exactly when the n days ending at the start day are all completed and the day before them is not |
| StreakCalculator.CalculateStreak | src/utils/streakCalculator.ts:37-79 | The computed streak equals the reference streak; it is 0 when nothing is completed and never exceeds the number of completed dates |
| StreakCalculator.NoCompletedMeansNoStreak | src/utils/streakCalculator.ts:39-45 | With no completed entry (the empty map included) the streak is 0, so uncompleted entries never count |
| StreakCalculator.StaleLatestBreaksStreak | src/utils/streakCalculator.ts:47-53 | If the latest completed date is neither today nor yesterday, the streak is 0 however long the earlier run |
| StreakCalculator.StreakIsRunFromLatest | src/utils/streakCalculator.ts:55-78 | Otherwise the streak is n exactly when the n days ending at the latest date are completed and the day before is not; it lies between 1 and the number of completed dates |
| StreakCalculator.RunEndingTodayCounts | src/utils/streakCalculator.ts:47-78 | With nothing dated after today, n completed days ending today after a missed day give a streak of n |
| StreakCalculator.StreakNeverGrowsWithTime | src/utils/streakCalculator.ts:47-53 | With nothing completed after the earlier day, recomputing on a later day gives the same streak or 0 |
| StreakCalculator.HasCheckedInToday | src/utils/streakCalculator.ts:29-32 | True exactly when today has an entry and that entry is completed |
| StreakCalculator.ProcessCheckIn | src/utils/streakCalculator.ts:84-121 | Unchanged when today is already in; otherwise adds today's completed entry and leaves the others alone, total +1, last date today, current streak recomputed over the new map, longest the larger of old longest and new current |
| StreakCalculator.ProcessCheckInIdempotent | src/utils/streakCalculator.ts:88-91 | A second check-in on the same day changes nothing |
| StreakCalculator.CheckInExtendsStreak | src/utils/streakCalculator.ts:100-108 | A real check-in makes the new current streak the old computed streak plus one, when nothing is dated after today |
| StreakCalculator.CheckInAfterGapRestarts | src/utils/streakCalculator.ts:100-108 | Checking in today when yesterday has no completed entry, and nothing is dated later, sets the streak to 1 |
| StreakCalculator.FutureEntrySuppressesStreak | src/utils/streakCalculator.ts:47-53 | For every record with a completed entry dated after today, the streak is 0 and a check-in leaves it at 0, so the +1 identity fails |
| StreakCalculator.FirstCheckIn | src/utils/streakCalculator.ts:84-121 | The first check-in of a fresh record gives current 1, longest 1, last date today, total 1 |
| StreakCalculator.TwoDayScenario | src/utils/streakCalculator.ts:47-78 | June 1 and 2 completed: streak 2 on June 3 and 0 on June 4 |
| StreakCalculator.CheckInsMonotone | src/utils/streakCalculator.ts:107-108 | Over any sequence of check-ins the longest streak never decreases, and the total grows by at most one per check-in |
| CheckInDisplay.IsMilestone | src/utils/streakCalculator.ts:163-166 | A milestone is exactly one of 5, 10, 30, 50, 100 and 365 |
| CheckInDisplay.MilestoneIsExact | src/utils/streakCalculator.ts:163-166 | The days just before and just after a milestone are not milestones |
| CheckInDisplay.MilestoneAlerts | src/screens/DailyCheckInScreen.tsx:97-102 | Over check-ins that each raise the streak by one, the milestone alert fires on exactly the milestone values passed, each once and in increasing order |
| CheckInDisplay.ClassifyInsight | src/utils/streakCalculator.ts:126-158 | The branch taken, as a closed condition per branch that spells out first-match precedence: no streak and no check-ins; no streak after check-ins; a record longer than one day; then the 30, 10, 5 and 3 day tiers for non-records; otherwise the plain count |
| CheckInDisplay.InsightMessage | src/utils/streakCalculator.ts:129-135 | The two zero-streak messages appear exactly under their conditions |
| CheckInDisplay.MessageDeterminesInsight | src/utils/streakCalculator.ts:126-158 | Two summaries get the same message only when they take the same branch with the same number |
| CheckInDisplay.InsightTextInjective | src/utils/streakCalculator.ts:130-157 | Different branches or numbers give different texts |
| CheckInDisplay.LocalClock | src/utils/streakCalculator.ts:172-174 | The local hours are 0 to 23 and the minutes 0 to 59 |
| CheckInDisplay.LocalClockSplitsTheDay | src/utils/streakCalculator.ts:172-174 | Hours and minutes are the whole hours and the remaining whole minutes since local midnight |
| CheckInDisplay.ToTwelveHour | src/utils/streakCalculator.ts:175-176 | The display hour is 1 to 12, PM exactly from hour 12 on, and the reading converts back to the same 24-hour time |
| CheckInDisplay.FormatCheckInTimeReadsBack | src/utils/streakCalculator.ts:171-179 | The text is 7 or 8 characters: an hour of 1 to 12, a colon, two minute digits, a space, then AM or PM; read back, it gives the local time |
| CheckInDisplay.MonthDays | src/utils/streakCalculator.ts:188-197 | The first n days of a month are n distinct dates |
| CheckInDisplay.MonthlyRateOf | src/utils/streakCalculator.ts:184-197 | The count is the completed days dated this month; it never exceeds the month's length, which is 28 to 31 |
| CheckInDisplay.MonthlyCompletionRateReadsBack | src/utils/streakCalculator.ts:199 | The rate text is a count, a slash, a month length and " days this month", and the two numbers read back |
| CheckInDisplay.FirstDaysCompleted | src/utils/streakCalculator.ts:190-197 | When, of this month's days, exactly the first n are completed, the rate is n of the month's length, whatever other months and uncompleted entries the record holds |
| CheckInDisplay.MonthlyRateExample | src/utils/streakCalculator.ts:184-200 | Ten completed days of June 2025 give 10 of 30, shown as `10/30 days this month`, whatever other months hold |
| Storage.MergeStreakData | src/utils/storage.ts:64-67 | Each stored streak field wins and each missing one takes its initial value |
| Storage.MergeActivity | src/utils/storage.ts:61-68 | Stored check-ins replace the initial empty map; the streak summary merges field by field |
| Storage.LoadActivity | src/utils/storage.ts:55-75 | A read failure, no stored value, an empty string or unparsable text give the initial record; a parsed object is merged over it |
| Storage.SaveActivity | src/utils/storage.ts:46-53 | A failed write is rethrown and the store is unchanged; otherwise the record is stored under the activity key and no other key changes |
| Storage.MergeCompleteActivity | src/utils/storage.ts:61-68 | The merge is the identity on a complete record |
| Storage.ActivityRoundTrip | src/utils/storage.ts:46-68 | Loading after a successful save gives back the saved record |
| Storage.PartialStreakDataDefaults | src/utils/storage.ts:64-67 | A stored summary with only its longest streak gives 0 current, that longest, no last date and 0 total |
| Storage.MergeJournal | src/utils/storage.ts:24-28 | Each stored journal field wins and each missing one takes its initial value; the vision boards are the stored boards if present, else the initial ones |
| Storage.LoadJournal | src/utils/storage.ts:18-35 | A read failure, no stored value, an empty string or unparsable text give the initial journal; a parsed object is merged over it |
| Storage.SaveJournal | src/utils/storage.ts:9-16 | A failed write is rethrown and the store is unchanged; otherwise the journal is stored under the journal key and no other key changes |
| Storage.JournalRoundTrip | src/utils/storage.ts:9-28 | Loading after a successful save gives back the saved journal |
| Storage.VisionBoardsReplacedWhole | src/utils/storage.ts:27 | Stored vision boards are kept as they are, without filling in missing categories |
| Storage.SavesAreIndependent | src/utils/storage.ts:5-6 | Saving the activity leaves the journal that loads unchanged, and saving the journal leaves the activity unchanged |
| ActivityStore.ApplyLoad | src/context/ActivityContext.tsx:25-46 | After a load the current streak is recomputed and every other stored field is kept; the flag is whether today is completed; an exception leaves the record and the flag alone; loading ends in every case |
| ActivityStore.LoadActivityData | src/context/ActivityContext.tsx:25-46 | A load from storage always leaves a consistent store, and shows the initial record when reading fails |
| ActivityStore.RefreshActivity | src/context/ActivityContext.tsx:65-67 | A refresh recomputes the streak and the flag for the day it runs on |
| ActivityStore.CheckIn | src/context/ActivityContext.tsx:48-63 | No change and no save when today is in; otherwise the record becomes the processed check-in, the flag is set, exactly that record is saved, and a failed save is rethrown after the in-memory update |
| ActivityStore.StaleStoreAnnouncesWrongStreak | src/screens/DailyCheckInScreen.tsx:97-99 | A store loaded yesterday whose streak yesterday did not extend checks in today to a streak of 1, not the announced old streak plus one |
| ActivityStore.CheckInPreservesConsistency | src/context/ActivityContext.tsx:48-63 | A check-in keeps the cached streak and the flag consistent, whether or not the save succeeds |
| ActivityStore.CheckInShowsOneMore | src/screens/DailyCheckInScreen.tsx:97-99 | On a consistent store with nothing dated after today, the streak shown after checking in is the one shown before plus one |
| ActivityStore.SecondCheckInIsNoOp | src/context/ActivityContext.tsx:50-53 | Checking in again the same day changes nothing and saves nothing |
| ActivityStore.ReloadAfterCheckInAgrees | src/context/ActivityContext.tsx:55-58 | After a saved check-in, loading on the same day shows exactly the in-memory record, with the flag set |
| ActivityStore.CheckInBeforeLoadDropsHistory | src/context/ActivityContext.tsx:17-19 | A check-in before the first load saves today's entry alone, whatever history was stored |

## Left out

- The host clock and time zone. `today`, `now` and the UTC offset are parameters. The offset is fixed, so daylight-saving changes within a day are not modelled.
- Parsing date keys. The app reads a key back with `new Date("YYYY-MM-DD")`, which is UTC midnight, then reads its local fields (src/utils/streakCalculator.ts:57-68, 191-194). West of UTC this shifts a key to the previous local day, which can move a check-in across a month boundary in the monthly rate. The model uses the intended calendar meaning of each key.
- Calendar.KeyOrderIsDateOrder: proved only for four-digit years, because the app writes the year unpadded; `localeCompare` is modelled as plain code-unit order.
- StreakCalculator.CheckInExtendsStreak: requires that nothing is dated after today, because without it the identity is false (see `FutureEntrySuppressesStreak`).
- ActivityStore.CheckInShowsOneMore: requires a store consistent with today, for the same reason and because the store is never refreshed by the screens.
- JSON typing. A field of the wrong type, or `checkIns` stored as `null`, is not modelled. Stored blobs have the shapes the app writes. A blob of the other record's kind reads as an object with none of the expected fields.
- `clearJournal` and `clearActivity`: no store operation reaches them.
- React rendering, the asynchronous interleaving of overlapping `checkIn` calls, and the `console.error` logging.
- The journal context, settings, notifications, export, the screens and the home-screen widget. The widget and `ProgressCard` compute today in UTC, and the widget tests only whether a record exists (src/utils/widgetTaskHandler.ts:30-31). Neither is part of this model.
- Numbers are unbounded naturals. JavaScript's floating-point numbers, negative counters and `NaN` do not arise in this model.
