/**
 The persistence layer: the activity record and the journal are stored as
 JSON blobs under two fixed keys of a string-keyed store. Loading merges what
 was stored over the initial record, field by field for the streak summary
 and whole-value for everything else, and falls back to the initial record
 when nothing usable is stored or reading fails. Saving rethrows a write
 failure and leaves the store as it was.

 The store is a map from key to blob; JSON text is modelled by its parsed
 shape, in which a field is either present (`Some`) or missing (`None`).
 Whether the device's storage fails is a parameter of the backend.
 */
module Storage {
  import opened Calendar
  import opened Activity

  const JournalKey: string := "@radiant_journal"
  const ActivityKey: string := "@radiant_activity"

  // ----- The journal record -----

  datatype Goals = Goals(wealth: string, business: string, healthFitness: string, personalBehavior: string)

  /** An image on a vision board; `imageLabel` is the optional `label` field. */
  datatype VisionBoardImage = VisionBoardImage(id: string, uri: string, imageLabel: Option<string>, addedAt: int)

  datatype VisionBoardCategory = RoleModels | Lifestyle | BodyGoals | SuccessSymbols | Inspiration

  /**
   The vision boards, one image list per category. A stored record may lack
   categories, which is why this is a map rather than five fields.
   */
  type VisionBoards = map<VisionBoardCategory, seq<VisionBoardImage>>

  datatype JournalData = JournalData(
    affirmations: seq<string>,
    morningRoutine: string,
    eveningRoutine: string,
    goals: Goals,
    traits: seq<string>,
    standards: seq<string>,
    dailyReminders: seq<string>,
    visionBoards: VisionBoards)

  const EmptyGoals := Goals("", "", "", "")

  const InitialVisionBoards: VisionBoards :=
    map[RoleModels := [], Lifestyle := [], BodyGoals := [], SuccessSymbols := [], Inspiration := []]

  /** `initialJournalData`: every list empty, every text blank, every board category present and empty. */
  const InitialJournalData := JournalData([], "", "", EmptyGoals, [], [], [], InitialVisionBoards)

  // ----- Stored shapes -----

  /** The streak summary as parsed; `lastCheckInDate` is `Some(None)` when `null` was stored. */
  datatype PartialStreakData = PartialStreakData(
    currentStreak: Option<nat>,
    longestStreak: Option<nat>,
    lastCheckInDate: Option<Option<Date>>,
    totalCheckIns: Option<nat>)

  datatype PartialActivity = PartialActivity(
    checkIns: Option<map<Date, DailyCheckIn>>,
    streakData: Option<PartialStreakData>)

  /** The journal as parsed; a stored `null` or missing `visionBoards` is `None`. */
  datatype PartialJournal = PartialJournal(
    affirmations: Option<seq<string>>,
    morningRoutine: Option<string>,
    eveningRoutine: Option<string>,
    goals: Option<Goals>,
    traits: Option<seq<string>>,
    standards: Option<seq<string>>,
    dailyReminders: Option<seq<string>>,
    visionBoards: Option<VisionBoards>)

  /**
   What a key holds: the empty string (falsy, so treated as nothing stored),
   text `JSON.parse` rejects, or a parsed activity or journal object.
   */
  datatype Blob = EmptyText | Unparsable | ActivityObject(activity: PartialActivity) | JournalObject(journal: PartialJournal)

  /** The device store; `readFails` and `writeFails` say whether its calls reject. */
  datatype Backend = Backend(items: map<string, Blob>, readFails: bool, writeFails: bool)

  /** How a save ended: resolved, or rejected with the error rethrown to the caller. */
  datatype SaveOutcome = Saved | Rethrown

  function Or<T>(field: Option<T>, fallback: T): T {
    if field.Some? then field.value else fallback
  }

  /** An object with none of the expected fields, as a blob of the other kind reads. */
  const NoActivityFields := PartialActivity(None, None)
  const NoJournalFields := PartialJournal(None, None, None, None, None, None, None, None)

  // ----- Activity -----

  /** `{...initialUserActivity.streakData, ...parsed.streakData}`: each stored field wins, each missing one defaults. */
  function MergeStreakData(parsed: Option<PartialStreakData>): (r: StreakData)
    ensures parsed.None? ==> r == InitialStreakData
    ensures parsed.Some? ==>
      && (parsed.value.currentStreak.Some? ==> r.currentStreak == parsed.value.currentStreak.value)
      && (parsed.value.currentStreak.None? ==> r.currentStreak == InitialStreakData.currentStreak)
      && (parsed.value.longestStreak.Some? ==> r.longestStreak == parsed.value.longestStreak.value)
      && (parsed.value.longestStreak.None? ==> r.longestStreak == InitialStreakData.longestStreak)
      && (parsed.value.lastCheckInDate.Some? ==> r.lastCheckInDate == parsed.value.lastCheckInDate.value)
      && (parsed.value.lastCheckInDate.None? ==> r.lastCheckInDate == InitialStreakData.lastCheckInDate)
      && (parsed.value.totalCheckIns.Some? ==> r.totalCheckIns == parsed.value.totalCheckIns.value)
      && (parsed.value.totalCheckIns.None? ==> r.totalCheckIns == InitialStreakData.totalCheckIns)
  {
    if parsed.None? then InitialStreakData
    else
      var p := parsed.value;
      StreakData(
        Or(p.currentStreak, InitialStreakData.currentStreak),
        Or(p.longestStreak, InitialStreakData.longestStreak),
        Or(p.lastCheckInDate, InitialStreakData.lastCheckInDate),
        Or(p.totalCheckIns, InitialStreakData.totalCheckIns))
  }

  /** The merge inside `loadActivity`: stored top-level fields win, `streakData` merges field-wise. */
  function MergeActivity(parsed: PartialActivity): (r: UserActivity)
    ensures parsed.checkIns.Some? ==> r.checkIns == parsed.checkIns.value
    ensures parsed.checkIns.None? ==> r.checkIns == InitialUserActivity.checkIns
    ensures r.streakData == MergeStreakData(parsed.streakData)
  {
    UserActivity(Or(parsed.checkIns, InitialUserActivity.checkIns), MergeStreakData(parsed.streakData))
  }

  /** The fields of an activity object in a blob; an object of the other kind has none of them. */
  function ActivityFields(blob: Blob): PartialActivity {
    if blob.ActivityObject? then blob.activity else NoActivityFields
  }

  /**
   `loadActivity`: never fails. A read failure, nothing stored, an empty
   string or unparsable text give the initial record; a parsed object is
   merged over it.
   */
  function LoadActivity(b: Backend): (r: UserActivity)
    ensures b.readFails ==> r == InitialUserActivity
    ensures !b.readFails && ActivityKey !in b.items ==> r == InitialUserActivity
    ensures !b.readFails && ActivityKey in b.items && b.items[ActivityKey] in {EmptyText, Unparsable}
            ==> r == InitialUserActivity
    ensures !b.readFails && ActivityKey in b.items && b.items[ActivityKey].ActivityObject?
            ==> r == MergeActivity(b.items[ActivityKey].activity)
  {
    if b.readFails || ActivityKey !in b.items then InitialUserActivity
    else match b.items[ActivityKey]
      case EmptyText => InitialUserActivity
      case Unparsable => InitialUserActivity
      case other => MergeActivity(ActivityFields(other))
  }

  /** `JSON.stringify` of a complete record, as it parses back: every field present. */
  function ActivityToJson(a: UserActivity): (p: PartialActivity)
    ensures p.checkIns.Some? && p.streakData.Some?
  {
    var s := a.streakData;
    PartialActivity(
      Some(a.checkIns),
      Some(PartialStreakData(Some(s.currentStreak), Some(s.longestStreak), Some(s.lastCheckInDate), Some(s.totalCheckIns))))
  }

  /**
   `saveActivity`: a rejected write is rethrown and the store is unchanged;
   otherwise the record is stored under the activity key and no other key
   changes.
   */
  function SaveActivity(b: Backend, data: UserActivity): (r: (Backend, SaveOutcome))
    ensures r.0.readFails == b.readFails && r.0.writeFails == b.writeFails
    ensures b.writeFails <==> r.1 == Rethrown
    ensures b.writeFails ==> r.0 == b
    ensures !b.writeFails ==>
      && ActivityKey in r.0.items
      && r.0.items[ActivityKey] == ActivityObject(ActivityToJson(data))
      && (forall k :: k != ActivityKey ==> (k in r.0.items <==> k in b.items))
      && (forall k :: k != ActivityKey && k in b.items ==> r.0.items[k] == b.items[k])
  {
    if b.writeFails then (b, Rethrown)
    else (b.(items := b.items[ActivityKey := ActivityObject(ActivityToJson(data))]), Saved)
  }

  /** The merge is the identity on a complete record. */
  lemma MergeCompleteActivity(a: UserActivity)
    ensures MergeActivity(ActivityToJson(a)) == a
  {
    var s := MergeStreakData(ActivityToJson(a).streakData);
    assert s == a.streakData;
  }

  /** Saving a record and loading it again gives the same record. */
  lemma ActivityRoundTrip(b: Backend, data: UserActivity)
    requires !b.writeFails && !b.readFails
    ensures LoadActivity(SaveActivity(b, data).0) == data
  {
    MergeCompleteActivity(data);
  }

  /** A stored activity blob whose streak summary lacks fields gets the defaults for exactly those fields. */
  lemma PartialStreakDataDefaults(b: Backend, checkIns: map<Date, DailyCheckIn>, longest: nat)
    requires !b.readFails
    requires ActivityKey in b.items
    requires b.items[ActivityKey] == ActivityObject(PartialActivity(
               Some(checkIns), Some(PartialStreakData(None, Some(longest), None, None))))
    ensures LoadActivity(b) == UserActivity(checkIns, StreakData(0, longest, None, 0))
  {
  }

  // ----- Journal -----

  /**
   The merge inside `loadJournal`: stored fields win over the initial
   journal, and `visionBoards` is the stored value when there is one and the
   initial boards otherwise, with no merging per category.
   */
  function MergeJournal(parsed: PartialJournal): (r: JournalData)
    ensures parsed.visionBoards.Some? ==> r.visionBoards == parsed.visionBoards.value
    ensures parsed.visionBoards.None? ==> r.visionBoards == InitialVisionBoards
    ensures parsed.goals.Some? ==> r.goals == parsed.goals.value
    ensures parsed.goals.None? ==> r.goals == EmptyGoals
    ensures parsed.affirmations.Some? ==> r.affirmations == parsed.affirmations.value
    ensures parsed.affirmations.None? ==> r.affirmations == []
    ensures parsed.morningRoutine.Some? ==> r.morningRoutine == parsed.morningRoutine.value
    ensures parsed.morningRoutine.None? ==> r.morningRoutine == ""
    ensures parsed.eveningRoutine.Some? ==> r.eveningRoutine == parsed.eveningRoutine.value
    ensures parsed.eveningRoutine.None? ==> r.eveningRoutine == ""
    ensures parsed.traits.Some? ==> r.traits == parsed.traits.value
    ensures parsed.traits.None? ==> r.traits == []
    ensures parsed.standards.Some? ==> r.standards == parsed.standards.value
    ensures parsed.standards.None? ==> r.standards == []
    ensures parsed.dailyReminders.Some? ==> r.dailyReminders == parsed.dailyReminders.value
    ensures parsed.dailyReminders.None? ==> r.dailyReminders == []
  {
    var init := InitialJournalData;
    JournalData(
      Or(parsed.affirmations, init.affirmations),
      Or(parsed.morningRoutine, init.morningRoutine),
      Or(parsed.eveningRoutine, init.eveningRoutine),
      Or(parsed.goals, init.goals),
      Or(parsed.traits, init.traits),
      Or(parsed.standards, init.standards),
      Or(parsed.dailyReminders, init.dailyReminders),
      Or(parsed.visionBoards, init.visionBoards))
  }

  function JournalFields(blob: Blob): PartialJournal {
    if blob.JournalObject? then blob.journal else NoJournalFields
  }

  /** `loadJournal`: never fails; falls back to the initial journal like `loadActivity`. */
  function LoadJournal(b: Backend): (r: JournalData)
    ensures b.readFails ==> r == InitialJournalData
    ensures !b.readFails && JournalKey !in b.items ==> r == InitialJournalData
    ensures !b.readFails && JournalKey in b.items && b.items[JournalKey] in {EmptyText, Unparsable}
            ==> r == InitialJournalData
    ensures !b.readFails && JournalKey in b.items && b.items[JournalKey].JournalObject?
            ==> r == MergeJournal(b.items[JournalKey].journal)
  {
    if b.readFails || JournalKey !in b.items then InitialJournalData
    else match b.items[JournalKey]
      case EmptyText => InitialJournalData
      case Unparsable => InitialJournalData
      case other => MergeJournal(JournalFields(other))
  }

  function JournalToJson(j: JournalData): (p: PartialJournal)
    ensures p.visionBoards.Some? && p.goals.Some?
  {
    PartialJournal(
      Some(j.affirmations), Some(j.morningRoutine), Some(j.eveningRoutine), Some(j.goals),
      Some(j.traits), Some(j.standards), Some(j.dailyReminders), Some(j.visionBoards))
  }

  /** `saveJournal`: like `saveActivity`, under the journal key. */
  function SaveJournal(b: Backend, data: JournalData): (r: (Backend, SaveOutcome))
    ensures r.0.readFails == b.readFails && r.0.writeFails == b.writeFails
    ensures b.writeFails <==> r.1 == Rethrown
    ensures b.writeFails ==> r.0 == b
    ensures !b.writeFails ==>
      && JournalKey in r.0.items
      && r.0.items[JournalKey] == JournalObject(JournalToJson(data))
      && (forall k :: k != JournalKey ==> (k in r.0.items <==> k in b.items))
      && (forall k :: k != JournalKey && k in b.items ==> r.0.items[k] == b.items[k])
  {
    if b.writeFails then (b, Rethrown)
    else (b.(items := b.items[JournalKey := JournalObject(JournalToJson(data))]), Saved)
  }

  /** Saving a journal and loading it again gives the same journal. */
  lemma JournalRoundTrip(b: Backend, data: JournalData)
    requires !b.writeFails && !b.readFails
    ensures LoadJournal(SaveJournal(b, data).0) == data
  {
    var j := MergeJournal(JournalToJson(data));
    assert j == data;
  }

  /**
   A stored journal whose boards lack categories keeps exactly those boards:
   the missing categories are not filled in from the defaults.
   */
  lemma VisionBoardsReplacedWhole(b: Backend, boards: VisionBoards)
    requires !b.readFails
    requires JournalKey in b.items
    requires b.items[JournalKey] == JournalObject(NoJournalFields.(visionBoards := Some(boards)))
    ensures LoadJournal(b).visionBoards == boards
    ensures RoleModels !in boards ==> RoleModels !in LoadJournal(b).visionBoards
  {
  }

  /** The two records live under different keys: saving one leaves the other's load unchanged. */
  lemma SavesAreIndependent(b: Backend, activity: UserActivity, journal: JournalData)
    ensures LoadJournal(SaveActivity(b, activity).0) == LoadJournal(b)
    ensures LoadActivity(SaveJournal(b, journal).0) == LoadActivity(b)
  {
    assert JournalKey != ActivityKey by {
      assert JournalKey[9] != ActivityKey[9];
    }
  }
}
