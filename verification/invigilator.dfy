/**
 * Exam invigilator assignment (backend/app/services/invigilator_service.py).
 *
 * A day has `hoursPerDay` teaching hours starting at 09:00 and a week has
 * `daysPerWeek` teaching days starting on Monday; slot `d * hoursPerDay + h`
 * is hour h of day d, the same numbering the availability grid uses.
 *
 * Dates are ordinals of the proleptic Gregorian calendar (see `Dates`); the
 * parse of a "YYYY-MM-DD" string is an `Option<int>`, `None` where
 * `datetime.strptime` raises. The two database collections the service reads
 * are the `Db` value below.
 */
module Invigilator {
  import opened Common
  import opened PyText
  import opened Dates

  const DefaultHoursPerDay := 7
  const DefaultDaysPerWeek := 5
  /** The first teaching hour of the day, 09:00. */
  const DayStartHour := 9
  /** Saturday; `weekday() >= 5` is a weekend. */
  const FirstWeekendDay := 5

  /** The hour of a "HH:MM" time string, relative to the start of the teaching day. */
  function TeachingHour(timeStart: string): Option<int> {
    match PyInt(BeforeFirst(timeStart, ':'))
    case None => None
    case Some(hour) => Some(hour - DayStartHour)
  }

  /** The slot an exam at `timeStart` on `date` occupies, or -1 when it is outside the teaching week or unparsable. */
  function CalculateSlotNumber(date: Option<int>, timeStart: string, hoursPerDay: int, daysPerWeek: int): (slot: int)
    ensures slot == -1 || 0 <= slot < daysPerWeek * hoursPerDay
    ensures slot != -1 <==>
      && date.Some?
      && Weekday(date.value) < daysPerWeek
      && TeachingHour(timeStart).Some?
      && 0 <= TeachingHour(timeStart).value < hoursPerDay
  {
    if date.None? then -1
    else
      var dayOfWeek := Weekday(date.value);
      if dayOfWeek >= daysPerWeek then -1
      else
        match TeachingHour(timeStart)
        case None => -1
        case Some(teachingHour) =>
          if teachingHour < 0 || teachingHour >= hoursPerDay then -1
          else
            SlotInWeek(dayOfWeek, teachingHour, daysPerWeek, hoursPerDay);
            dayOfWeek * hoursPerDay + teachingHour
  }

  lemma SlotInWeek(d: int, h: int, days: int, hours: int)
    requires 0 <= d < days && 0 <= h < hours
    ensures 0 <= d * hours + h < days * hours
  {
    MulAtLeast(days - d, hours);
    MulDiff(days, d, hours);
  }

  /** A valid slot number decodes back to the exam's weekday and teaching hour. */
  lemma SlotNumberDecodes(date: Option<int>, timeStart: string, hoursPerDay: int, daysPerWeek: int)
    requires CalculateSlotNumber(date, timeStart, hoursPerDay, daysPerWeek) != -1
    ensures hoursPerDay > 0
    ensures CalculateSlotNumber(date, timeStart, hoursPerDay, daysPerWeek) / hoursPerDay == Weekday(date.value)
    ensures CalculateSlotNumber(date, timeStart, hoursPerDay, daysPerWeek) % hoursPerDay == TeachingHour(timeStart).value
  {
    var slot := CalculateSlotNumber(date, timeStart, hoursPerDay, daysPerWeek);
    var d := Weekday(date.value);
    var h := TeachingHour(timeStart).value;
    assert slot == d * hoursPerDay + h;
    DivModUnique(slot, hoursPerDay, d, h);
  }

  /** The slot numbers the test script expects for a Monday, a Tuesday, a Saturday, and hours before and after the teaching day. */
  lemma SlotNumberExamples()
    ensures CalculateSlotNumber(Some(Ordinal(2024, 1, 15)), "09:00", 7, 5) == 0
    ensures CalculateSlotNumber(Some(Ordinal(2024, 1, 15)), "10:00", 7, 5) == 1
    ensures CalculateSlotNumber(Some(Ordinal(2024, 1, 16)), "09:00", 7, 5) == 7
    ensures CalculateSlotNumber(Some(Ordinal(2024, 1, 20)), "09:00", 7, 5) == -1
    ensures CalculateSlotNumber(Some(Ordinal(2024, 1, 15)), "08:00", 7, 5) == -1
    ensures CalculateSlotNumber(Some(Ordinal(2024, 1, 15)), "16:00", 7, 5) == -1
  {
    January2024();
    HourOf("09:00", '0', '9', 9);
    HourOf("10:00", '1', '0', 10);
    HourOf("08:00", '0', '8', 8);
    HourOf("16:00", '1', '6', 16);
  }

  /** A start hour written in full-width digits reads as the same hour, as `int()` does. */
  lemma SlotNumberFullWidthHour()
    ensures CalculateSlotNumber(Some(Ordinal(2024, 1, 15)), "\U{FF11}\U{FF10}:00", 7, 5) == 1
  {
    January2024();
    HourOf("\U{FF11}\U{FF10}:00", '\U{FF11}', '\U{FF10}', 10);
  }

  /** An hour written with more than 4300 digits makes `int()` raise, so the exam gets no slot. */
  lemma SlotNumberDigitLimit()
    ensures CalculateSlotNumber(Some(Ordinal(2024, 1, 15)), Zeros(MaxStrDigits - 1) + "10:00", 7, 5) == -1
  {
    var w := Zeros(MaxStrDigits - 1) + "10";
    assert Zeros(MaxStrDigits - 1) + "10:00" == w + [':'] + "00";
    assert forall i :: 0 <= i < |w| ==> IsDigit(w[i]);
    BeforeFirstOf(w, ':', "00");
    PyIntTooManyDigits(w);
  }

  lemma HourOf(t: string, a: char, b: char, h: int)
    requires |t| == 5 && t[0] == a && t[1] == b && t[2] == ':' && t[3..] == "00"
    requires IsDigit(a) && IsDigit(b) && h == 10 * DigitValue(a) + DigitValue(b)
    ensures TeachingHour(t) == Some(h - DayStartHour)
  {
    var s := BeforeFirst(t, ':');
    assert BeforeFirst(t[2..], ':') == "";
    assert BeforeFirst(t[1..], ':') == [b];
    assert s == [a, b];
    assert IsWord(s);
    WordIsStripped(s);
    assert s[..1] == [a] && [a][..0] == [];
    assert DigitsValue([a]) == DigitValue(a);
    assert DigitsValue(s) == 10 * DigitValue(a) + DigitValue(b);
    assert ValidDigits(s);
  }

  /**
   * The two collections the service reads: `teacherIds` maps a teacher's
   * name to the `id` field of the first teacher document with that name (""
   * when the field is missing or empty), `unavailableSlots` maps a teacher
   * id to the `slots` list of their availability document.
   */
  datatype Db = Db(teacherIds: map<string, string>, unavailableSlots: map<string, seq<int>>)

  /** `is_teacher_available`: only a teacher with a recorded availability can be unavailable. */
  predicate IsTeacherAvailable(db: Db, name: string, date: Option<int>, timeStart: string) {
    if name !in db.teacherIds || db.teacherIds[name] == "" then true
    else if db.teacherIds[name] !in db.unavailableSlots then true
    else
      var slot := CalculateSlotNumber(date, timeStart, DefaultHoursPerDay, DefaultDaysPerWeek);
      slot != -1 && slot !in db.unavailableSlots[db.teacherIds[name]]
  }

  /** Whether the teacher has an availability record at all. */
  predicate HasRecord(db: Db, name: string) {
    name in db.teacherIds && db.teacherIds[name] != "" && db.teacherIds[name] in db.unavailableSlots
  }

  /**
   * A teacher is unavailable exactly when they have a record and the exam
   * either falls outside the teaching week or in one of their recorded slots.
   */
  lemma AvailabilityCharacterised(db: Db, name: string, date: Option<int>, timeStart: string)
    ensures !IsTeacherAvailable(db, name, date, timeStart) <==>
      && HasRecord(db, name)
      && var slot := CalculateSlotNumber(date, timeStart, DefaultHoursPerDay, DefaultDaysPerWeek);
         (slot == -1 || slot in db.unavailableSlots[db.teacherIds[name]])
  {
  }

  /** Recording more unavailable slots for a teacher never makes anyone more available. */
  lemma AvailabilityAntitone(db: Db, id: string, more: seq<int>, name: string, date: Option<int>, timeStart: string)
    requires id in db.unavailableSlots
    requires forall s :: s in db.unavailableSlots[id] ==> s in more
    ensures IsTeacherAvailable(db.(unavailableSlots := db.unavailableSlots[id := more]), name, date, timeStart)
        ==> IsTeacherAvailable(db, name, date, timeStart)
  {
  }

  // ---------------------------------------------------------------------------
  // assign_invigilators_simple

  datatype Outcome = Assigned | DuplicateAssignment | NotAvailable
  datatype Attempt = Attempt(teacher: string, outcome: Outcome)

  /** "success", "partial" or "failed". */
  datatype DayStatus = FullyStaffed | UnderStaffed | Failed

  datatype DayRecord = DayRecord(
    date: int,
    teachers: seq<string>,
    required: int,
    assignedCount: nat,
    status: DayStatus,
    attempts: seq<Attempt>)

  datatype TeacherSummary = TeacherSummary(databaseTeachers: seq<string>, externalTeachers: seq<string>)

  datatype Summary = Summary(
    totalDaysProcessed: nat,
    successfulDays: nat,
    totalRequired: int,
    totalAssigned: nat,
    totalDays: int,
    weekdays: nat,
    weekends: nat)

  datatype AssignError = DateParseError | StartAfterEnd | NonPositiveTeachersPerDay | EmptyTeacherNames | NoTeachers

  /**
   * What `assign_invigilators_simple` gives back. `Overflowed` stands for the
   * OverflowError that stepping past 9999-12-31 raises out of the call: the
   * day loop ends each day with `current_date += timedelta(days=1)`.
   */
  datatype AssignResult =
    | Rejected(error: AssignError)
    | Overflowed
    | Assignment(assignments: seq<DayRecord>, skippedDays: seq<int>, teacherSummary: TeacherSummary, summary: Summary)

  /** The names attempts assigned, in order. */
  function AssignedNames(log: seq<Attempt>): (r: seq<string>)
    ensures |r| <= |log|
  {
    if |log| == 0 then []
    else AssignedNames(log[..|log| - 1]) + (if log[|log| - 1].outcome == Assigned then [log[|log| - 1].teacher] else [])
  }

  function TeacherAt(all: seq<string>, start: nat, attempt: nat): string
    requires |all| > 0
  {
    all[(start + attempt) % |all|]
  }

  /** The first k teachers of the round-robin that starts at `start`. */
  function RoundRobin(all: seq<string>, start: nat, k: nat): (r: seq<string>)
    requires |all| > 0
    ensures |r| == k
    ensures forall a :: 0 <= a < k ==> r[a] == TeacherAt(all, start, a)
  {
    if k == 0 then [] else RoundRobin(all, start, k - 1) + [TeacherAt(all, start, k - 1)]
  }

  /** The teachers of the list that `is_teacher_available` accepts for this exam. */
  function AvailableOn(db: Db, date: int, timeStart: string, all: seq<string>): (r: set<string>)
    ensures forall x :: x in r <==> x in all && IsTeacherAvailable(db, x, Some(date), timeStart)
  {
    set x | x in all && IsTeacherAvailable(db, x, Some(date), timeStart)
  }

  /**
   * Attempt a of the log tried the a-th teacher of the round-robin from
   * `start`, and was refused as unavailable exactly when that teacher is not
   * in `available`.
   */
  predicate RoundRobinLog(available: set<string>, all: seq<string>, start: nat, log: seq<Attempt>)
    requires |all| > 0
  {
    forall a :: 0 <= a < |log| ==>
      log[a].teacher == TeacherAt(all, start, a) && (log[a].outcome == NotAvailable <==> log[a].teacher !in available)
  }

  /**
   * The round-robin of one exam day: starting at index `start`, try teachers
   * in turn for at most 3 * |all| attempts until `teachersPerDay` distinct
   * ones from `available` are found.
   */
  function PickDay(available: set<string>, all: seq<string>, teachersPerDay: int, start: nat,
                   attempts: nat, chosen: seq<string>, log: seq<Attempt>): (r: (seq<string>, seq<Attempt>))
    requires |all| > 0
    requires NoDups(chosen) && |chosen| <= teachersPerDay
    requires forall x :: x in chosen ==> x in all && x in available
    requires AssignedNames(log) == chosen
    requires forall a :: 0 <= a < attempts && TeacherAt(all, start, a) in available ==> TeacherAt(all, start, a) in chosen
    ensures NoDups(r.0) && |r.0| <= teachersPerDay
    ensures forall x :: x in r.0 ==> x in all && x in available
    ensures AssignedNames(r.1) == r.0
    ensures |r.0| < teachersPerDay ==>
      forall a :: 0 <= a < 3 * |all| && TeacherAt(all, start, a) in available ==> TeacherAt(all, start, a) in r.0
    decreases 3 * |all| - attempts
  {
    if |chosen| >= teachersPerDay || attempts >= 3 * |all| then (chosen, log)
    else
      var name := TeacherAt(all, start, attempts);
      LogStep(log, name);
      PickDayStep(available, all, teachersPerDay, start, attempts, chosen);
      if name in available then
        if name !in chosen then
          PickDay(available, all, teachersPerDay, start, attempts + 1, chosen + [name], log + [Attempt(name, Assigned)])
        else
          PickDay(available, all, teachersPerDay, start, attempts + 1, chosen, log + [Attempt(name, DuplicateAssignment)])
      else
        PickDay(available, all, teachersPerDay, start, attempts + 1, chosen, log + [Attempt(name, NotAvailable)])
  }

  /**
   * The attempt log of the round-robin: attempt a tried the a-th teacher from
   * `start` and was refused as unavailable exactly when that teacher is not
   * available; there are at most 3 * |all| attempts, and fewer only when the
   * day was fully staffed.
   */
  lemma {:induction false} PickDayAttempts(available: set<string>, all: seq<string>, teachersPerDay: int, start: nat,
                                           attempts: nat, chosen: seq<string>, log: seq<Attempt>)
    requires |all| > 0
    requires NoDups(chosen) && |chosen| <= teachersPerDay
    requires forall x :: x in chosen ==> x in all && x in available
    requires AssignedNames(log) == chosen
    requires forall a :: 0 <= a < attempts && TeacherAt(all, start, a) in available ==> TeacherAt(all, start, a) in chosen
    requires |log| == attempts && RoundRobinLog(available, all, start, log)
    ensures var r := PickDay(available, all, teachersPerDay, start, attempts, chosen, log);
      && RoundRobinLog(available, all, start, r.1)
      && (attempts <= 3 * |all| ==> |r.1| <= 3 * |all|)
      && (|r.1| < 3 * |all| ==> |r.0| == teachersPerDay)
    decreases 3 * |all| - attempts
  {
    if |chosen| < teachersPerDay && attempts < 3 * |all| {
      var next, chosen' := PickDayUnfold(available, all, teachersPerDay, start, attempts, chosen, log);
      LogExtends(available, all, start, log, next);
      PickDayAttempts(available, all, teachersPerDay, start, attempts + 1, chosen', log + [next]);
    } else {
      assert PickDay(available, all, teachersPerDay, start, attempts, chosen, log) == (chosen, log);
    }
  }

  /** One attempt of the round-robin: the loop continues from the state with one more logged attempt. */
  lemma PickDayUnfold(available: set<string>, all: seq<string>, teachersPerDay: int, start: nat,
                      attempts: nat, chosen: seq<string>, log: seq<Attempt>)
    returns (next: Attempt, chosen': seq<string>)
    requires |all| > 0
    requires NoDups(chosen) && |chosen| < teachersPerDay && attempts < 3 * |all|
    requires forall x :: x in chosen ==> x in all && x in available
    requires AssignedNames(log) == chosen
    requires forall a :: 0 <= a < attempts && TeacherAt(all, start, a) in available ==> TeacherAt(all, start, a) in chosen
    ensures next.teacher == TeacherAt(all, start, attempts) && (next.outcome == NotAvailable <==> next.teacher !in available)
    ensures NoDups(chosen') && |chosen'| <= teachersPerDay
    ensures forall x :: x in chosen' ==> x in all && x in available
    ensures AssignedNames(log + [next]) == chosen'
    ensures forall a :: 0 <= a < attempts + 1 && TeacherAt(all, start, a) in available ==> TeacherAt(all, start, a) in chosen'
    ensures PickDay(available, all, teachersPerDay, start, attempts, chosen, log)
         == PickDay(available, all, teachersPerDay, start, attempts + 1, chosen', log + [next])
  {
    var name := TeacherAt(all, start, attempts);
    LogStep(log, name);
    PickDayStep(available, all, teachersPerDay, start, attempts, chosen);
    if name !in available {
      next, chosen' := Attempt(name, NotAvailable), chosen;
    } else if name !in chosen {
      next, chosen' := Attempt(name, Assigned), chosen + [name];
    } else {
      next, chosen' := Attempt(name, DuplicateAssignment), chosen;
    }
  }

  /** The state after one more attempt still meets the round-robin's invariant. */
  lemma PickDayStep(available: set<string>, all: seq<string>, teachersPerDay: int, start: nat, attempts: nat, chosen: seq<string>)
    requires |all| > 0
    requires NoDups(chosen) && |chosen| < teachersPerDay
    requires forall x :: x in chosen ==> x in all && x in available
    requires forall a :: 0 <= a < attempts && TeacherAt(all, start, a) in available ==> TeacherAt(all, start, a) in chosen
    ensures var name := TeacherAt(all, start, attempts);
      var chosen' := if name in available && name !in chosen then chosen + [name] else chosen;
      && NoDups(chosen') && |chosen'| <= teachersPerDay
      && (forall x :: x in chosen' ==> x in all && x in available)
      && (forall a :: 0 <= a < attempts + 1 && TeacherAt(all, start, a) in available ==> TeacherAt(all, start, a) in chosen')
  {
    var name := TeacherAt(all, start, attempts);
    assert name in all;
    if name in available && name !in chosen {
      var chosen' := chosen + [name];
      assert NoDups(chosen') by {
        forall i, j | 0 <= i < j < |chosen'|
          ensures chosen'[i] != chosen'[j]
        {
          if j == |chosen| {
            assert chosen[i] in chosen;
          }
        }
      }
    }
  }

  /** Logging the next teacher of the round-robin, refused exactly when unavailable, keeps the log's shape. */
  lemma LogExtends(available: set<string>, all: seq<string>, start: nat, log: seq<Attempt>, next: Attempt)
    requires |all| > 0 && RoundRobinLog(available, all, start, log)
    requires next.teacher == TeacherAt(all, start, |log|) && (next.outcome == NotAvailable <==> next.teacher !in available)
    ensures RoundRobinLog(available, all, start, log + [next])
  {
    var log' := log + [next];
    forall a | 0 <= a < |log'|
      ensures log'[a].teacher == TeacherAt(all, start, a) && (log'[a].outcome == NotAvailable <==> log'[a].teacher !in available)
    {
      if a < |log| {
        assert log'[a] == log[a];
      }
    }
  }

  /** Logging an attempt extends the assigned names only when the attempt assigned. */
  lemma LogStep(log: seq<Attempt>, name: string)
    ensures AssignedNames(log + [Attempt(name, Assigned)]) == AssignedNames(log) + [name]
    ensures AssignedNames(log + [Attempt(name, DuplicateAssignment)]) == AssignedNames(log)
    ensures AssignedNames(log + [Attempt(name, NotAvailable)]) == AssignedNames(log)
  {
    assert (log + [Attempt(name, Assigned)])[..|log|] == log;
    assert (log + [Attempt(name, DuplicateAssignment)])[..|log|] == log;
    assert (log + [Attempt(name, NotAvailable)])[..|log|] == log;
  }

  /** The teachers and attempt log of one weekday. */
  function DayTeachers(db: Db, date: int, timeStart: string, all: seq<string>, teachersPerDay: int, start: nat): (r: (seq<string>, seq<Attempt>))
    requires |all| > 0 && teachersPerDay > 0
    ensures NoDups(r.0) && |r.0| <= teachersPerDay
    ensures forall x :: x in r.0 ==> x in all && IsTeacherAvailable(db, x, Some(date), timeStart)
    ensures AssignedNames(r.1) == r.0
    ensures |r.1| <= 3 * |all|
    ensures |r.1| < 3 * |all| ==> |r.0| == teachersPerDay
    ensures forall a :: 0 <= a < |r.1| ==>
      && r.1[a].teacher == TeacherAt(all, start, a)
      && (r.1[a].outcome == NotAvailable <==> !IsTeacherAvailable(db, r.1[a].teacher, Some(date), timeStart))
  {
    var available := AvailableOn(db, date, timeStart, all);
    PickDayAttempts(available, all, teachersPerDay, start, 0, [], []);
    var r := PickDay(available, all, teachersPerDay, start, 0, [], []);
    forall a | 0 <= a < |r.1|
      ensures r.1[a].teacher in available <==> IsTeacherAvailable(db, r.1[a].teacher, Some(date), timeStart)
    {
      assert r.1[a].teacher in all;
    }
    r
  }

  /** A day is understaffed only when every available teacher of the list was assigned. */
  lemma UnderStaffedOnlyWhenExhausted(db: Db, date: int, timeStart: string, all: seq<string>, teachersPerDay: int, start: nat, name: string)
    requires |all| > 0 && teachersPerDay > 0
    requires |DayTeachers(db, date, timeStart, all, teachersPerDay, start).0| < teachersPerDay
    requires name in all && IsTeacherAvailable(db, name, Some(date), timeStart)
    ensures name in DayTeachers(db, date, timeStart, all, teachersPerDay, start).0
  {
    var n := |all|;
    var j :| 0 <= j < n && all[j] == name;
    var a := (j - start) % n;
    ModAddBack(start, j, n);
    assert TeacherAt(all, start, a) == name;
    assert name in AvailableOn(db, date, timeStart, all);
  }

  /** A run of attempts that met only distinct, available teachers assigned each of them in turn. */
  lemma {:induction false} PickDayAllAvailable(available: set<string>, all: seq<string>, teachersPerDay: int, start: nat,
                                               attempts: nat, chosen: seq<string>, log: seq<Attempt>)
    requires |all| > 0 && NoDups(all) && teachersPerDay <= |all|
    requires forall x :: x in all ==> x in available
    requires attempts <= teachersPerDay
    requires chosen == RoundRobin(all, start, attempts)
    requires NoDups(chosen)
    requires forall x :: x in chosen ==> x in all && x in available
    requires AssignedNames(log) == chosen
    requires forall a :: 0 <= a < attempts && TeacherAt(all, start, a) in available ==> TeacherAt(all, start, a) in chosen
    ensures PickDay(available, all, teachersPerDay, start, attempts, chosen, log).0 == RoundRobin(all, start, teachersPerDay)
    decreases teachersPerDay - attempts
  {
    if attempts < teachersPerDay {
      var name := TeacherAt(all, start, attempts);
      var chosen', log' := NextAssigned(available, all, teachersPerDay, start, attempts, chosen, log);
      PickDayAllAvailable(available, all, teachersPerDay, start, attempts + 1, chosen', log');
    }
  }

  /** One step of a run that meets only distinct, available teachers: the next teacher is new and is assigned. */
  lemma NextAssigned(available: set<string>, all: seq<string>, teachersPerDay: int, start: nat,
                     attempts: nat, chosen: seq<string>, log: seq<Attempt>)
    returns (chosen': seq<string>, log': seq<Attempt>)
    requires |all| > 0 && NoDups(all) && teachersPerDay <= |all|
    requires forall x :: x in all ==> x in available
    requires attempts < teachersPerDay
    requires chosen == RoundRobin(all, start, attempts)
    requires NoDups(chosen)
    requires forall x :: x in chosen ==> x in all && x in available
    requires AssignedNames(log) == chosen
    requires forall a :: 0 <= a < attempts && TeacherAt(all, start, a) in available ==> TeacherAt(all, start, a) in chosen
    ensures var name := TeacherAt(all, start, attempts);
      && chosen' == chosen + [name] && log' == log + [Attempt(name, Assigned)]
      && name in available && name !in chosen
    ensures chosen' == RoundRobin(all, start, attempts + 1)
    ensures NoDups(chosen')
    ensures forall x :: x in chosen' ==> x in all && x in available
    ensures AssignedNames(log') == chosen'
    ensures forall a :: 0 <= a < attempts + 1 && TeacherAt(all, start, a) in available ==> TeacherAt(all, start, a) in chosen'
  {
    var name := TeacherAt(all, start, attempts);
    assert name in all;
    assert name !in chosen by {
      forall a | 0 <= a < attempts ensures chosen[a] != name {
        RoundRobinDistinct(all, start, a, attempts);
      }
    }
    chosen' := chosen + [name];
    log' := log + [Attempt(name, Assigned)];
    LogStep(log, name);
  }

  lemma RoundRobinDistinct(all: seq<string>, start: nat, a: nat, b: nat)
    requires |all| > 0 && NoDups(all) && a < b < |all|
    ensures TeacherAt(all, start, a) != TeacherAt(all, start, b)
  {
    ModEqualGap(start + a, start + b, |all|);
  }

  /** With distinct teachers who are all available, a day gets the next `teachersPerDay` of them, in round-robin order. */
  lemma DayTeachersAllAvailable(db: Db, date: int, timeStart: string, all: seq<string>, teachersPerDay: int, start: nat)
    requires |all| > 0 && NoDups(all) && 0 < teachersPerDay <= |all|
    requires forall x :: x in all ==> IsTeacherAvailable(db, x, Some(date), timeStart)
    ensures DayTeachers(db, date, timeStart, all, teachersPerDay, start).0 == RoundRobin(all, start, teachersPerDay)
  {
    PickDayAllAvailable(AvailableOn(db, date, timeStart, all), all, teachersPerDay, start, 0, [], []);
  }

  function StatusOf(count: nat, teachersPerDay: int): (s: DayStatus)
    ensures s == Failed <==> count == 0
    ensures s == FullyStaffed <==> count > 0 && count == teachersPerDay
  {
    if count == 0 then Failed
    else if count == teachersPerDay then FullyStaffed
    else UnderStaffed
  }

  /**
   * The day loop from `current` through `end`: weekends are skipped, each
   * weekday gets a record, and the round-robin start moves on by
   * `teachersPerDay` after every weekday. These are the records the loop
   * holds when it has processed `end`; when `end` is 9999-12-31 the step
   * after it raises, which `AssignInvigilators` reports as `Overflowed`.
   */
  function Days(db: Db, current: int, end: int, timeStart: string, all: seq<string>, teachersPerDay: int, start: nat)
    : (r: (seq<DayRecord>, seq<int>))
    requires |all| > 0 && teachersPerDay > 0
    ensures |r.0| + |r.1| == if current <= end then end - current + 1 else 0
    ensures forall i :: 0 <= i < |r.0| ==> current <= r.0[i].date <= end && Weekday(r.0[i].date) < FirstWeekendDay
    ensures forall i :: 0 <= i < |r.1| ==> current <= r.1[i] <= end && Weekday(r.1[i]) >= FirstWeekendDay
    ensures forall i :: 0 <= i < |r.0| ==> r.0[i].assignedCount == |r.0[i].teachers| <= teachersPerDay
    decreases end - current
  {
    if current > end then ([], [])
    else if Weekday(current) >= FirstWeekendDay then
      var rest := Days(db, current + 1, end, timeStart, all, teachersPerDay, start);
      (rest.0, [current] + rest.1)
    else
      var day := DayTeachers(db, current, timeStart, all, teachersPerDay, start);
      var record := DayRecord(current, day.0, teachersPerDay, |day.0|, StatusOf(|day.0|, teachersPerDay), day.1);
      var rest := Days(db, current + 1, end, timeStart, all, teachersPerDay, (start + teachersPerDay) % |all|);
      ([record] + rest.0, rest.1)
  }

  /** Processed days and skipped days, each list in strictly increasing date order. */
  predicate DatesInOrder(r: (seq<DayRecord>, seq<int>)) {
    && (forall i, j :: 0 <= i < j < |r.0| ==> r.0[i].date < r.0[j].date)
    && (forall i, j :: 0 <= i < j < |r.1| ==> r.1[i] < r.1[j])
  }

  /** Every calendar day of the range is either processed or skipped, in date order. */
  lemma {:induction false} DaysOrdered(db: Db, current: int, end: int, timeStart: string, all: seq<string>, teachersPerDay: int, start: nat)
    requires |all| > 0 && teachersPerDay > 0
    ensures DatesInOrder(Days(db, current, end, timeStart, all, teachersPerDay, start))
    ensures |Days(db, current, end, timeStart, all, teachersPerDay, start).0| == WeekdaysBetween(current, end)
    decreases end - current
  {
    if current <= end {
      var next := if Weekday(current) >= FirstWeekendDay then start else (start + teachersPerDay) % |all|;
      DaysOrdered(db, current + 1, end, timeStart, all, teachersPerDay, next);
      DaysOrderedStep(db, current, end, timeStart, all, teachersPerDay, start);
    }
  }

  /** One day of the loop keeps both lists in date order and counts a weekday once. */
  lemma DaysOrderedStep(db: Db, current: int, end: int, timeStart: string, all: seq<string>, teachersPerDay: int, start: nat)
    requires |all| > 0 && teachersPerDay > 0 && current <= end
    requires var next := if Weekday(current) >= FirstWeekendDay then start else (start + teachersPerDay) % |all|;
      && DatesInOrder(Days(db, current + 1, end, timeStart, all, teachersPerDay, next))
      && |Days(db, current + 1, end, timeStart, all, teachersPerDay, next).0| == WeekdaysBetween(current + 1, end)
    ensures DatesInOrder(Days(db, current, end, timeStart, all, teachersPerDay, start))
    ensures |Days(db, current, end, timeStart, all, teachersPerDay, start).0| == WeekdaysBetween(current, end)
  {
    if Weekday(current) >= FirstWeekendDay {
      WeekendStep(db, current, end, timeStart, all, teachersPerDay, start);
    } else {
      WeekdayStep(db, current, end, timeStart, all, teachersPerDay, start);
    }
  }

  /** A weekend day is added to the skipped list in front of the later ones. */
  lemma WeekendStep(db: Db, current: int, end: int, timeStart: string, all: seq<string>, teachersPerDay: int, start: nat)
    requires |all| > 0 && teachersPerDay > 0 && current <= end && Weekday(current) >= FirstWeekendDay
    requires DatesInOrder(Days(db, current + 1, end, timeStart, all, teachersPerDay, start))
    requires |Days(db, current + 1, end, timeStart, all, teachersPerDay, start).0| == WeekdaysBetween(current + 1, end)
    ensures DatesInOrder(Days(db, current, end, timeStart, all, teachersPerDay, start))
    ensures |Days(db, current, end, timeStart, all, teachersPerDay, start).0| == WeekdaysBetween(current, end)
  {
    var rest := Days(db, current + 1, end, timeStart, all, teachersPerDay, start);
    assert Days(db, current, end, timeStart, all, teachersPerDay, start) == (rest.0, [current] + rest.1);
    IncreasingCons(current, rest.1);
  }

  /** A weekday's record goes in front of the later ones. */
  lemma WeekdayStep(db: Db, current: int, end: int, timeStart: string, all: seq<string>, teachersPerDay: int, start: nat)
    requires |all| > 0 && teachersPerDay > 0 && current <= end && Weekday(current) < FirstWeekendDay
    requires DatesInOrder(Days(db, current + 1, end, timeStart, all, teachersPerDay, (start + teachersPerDay) % |all|))
    requires |Days(db, current + 1, end, timeStart, all, teachersPerDay, (start + teachersPerDay) % |all|).0| == WeekdaysBetween(current + 1, end)
    ensures DatesInOrder(Days(db, current, end, timeStart, all, teachersPerDay, start))
    ensures |Days(db, current, end, timeStart, all, teachersPerDay, start).0| == WeekdaysBetween(current, end)
  {
    var rest := Days(db, current + 1, end, timeStart, all, teachersPerDay, (start + teachersPerDay) % |all|);
    var r := Days(db, current, end, timeStart, all, teachersPerDay, start);
    assert r.1 == rest.1 && r.0 == [r.0[0]] + rest.0 && r.0[0].date == current;
    DatesCons(r.0[0], rest.0);
  }

  /** A date before every date of an increasing list starts a longer increasing list. */
  lemma IncreasingCons(x: int, xs: seq<int>)
    requires forall i, j :: 0 <= i < j < |xs| ==> xs[i] < xs[j]
    requires forall i :: 0 <= i < |xs| ==> x < xs[i]
    ensures forall i, j :: 0 <= i < j < |[x] + xs| ==> ([x] + xs)[i] < ([x] + xs)[j]
  {
  }

  /** A day before every day of a list in date order starts a longer list in date order. */
  lemma DatesCons(d: DayRecord, ds: seq<DayRecord>)
    requires forall i, j :: 0 <= i < j < |ds| ==> ds[i].date < ds[j].date
    requires forall i :: 0 <= i < |ds| ==> d.date < ds[i].date
    ensures forall i, j :: 0 <= i < j < |[d] + ds| ==> ([d] + ds)[i].date < ([d] + ds)[j].date
  {
  }

  /** The number of Monday-to-Friday dates from `current` through `end`. */
  function WeekdaysBetween(current: int, end: int): (n: nat)
    ensures n <= if current <= end then end - current + 1 else 0
    decreases end - current
  {
    if current > end then 0
    else (if Weekday(current) < FirstWeekendDay then 1 else 0) + WeekdaysBetween(current + 1, end)
  }

  /** The round-robin start after i weekdays: `start = (start + teachersPerDay) % len(all)` applied i times. */
  function StartAfter(start: nat, step: int, n: int, i: nat): (r: nat)
    requires n > 0
    decreases i
  {
    if i == 0 then start else StartAfter((start + step) % n, step, n, i - 1)
  }

  /** For a start inside the list, the start after i weekdays is `(start + i * teachersPerDay) mod len(all)`. */
  lemma {:induction false} StartAfterClosedForm(start: nat, step: int, n: int, i: nat)
    requires n > 0 && start < n
    ensures StartAfter(start, step, n, i) == (start + i * step) % n
    decreases i
  {
    if i == 0 {
      StartInRange(start, step, n);
    } else {
      var next := (start + step) % n;
      StartAfterClosedForm(next, step, n, i - 1);
      StartAfterDays(start, step, n, i);
    }
  }

  /** The i-th processed weekday runs the round-robin from the start reached after the i weekdays before it. */
  lemma {:induction false} RoundRobinStart(db: Db, current: int, end: int, timeStart: string, all: seq<string>, teachersPerDay: int, start: nat, i: nat)
    requires |all| > 0 && teachersPerDay > 0
    requires i < |Days(db, current, end, timeStart, all, teachersPerDay, start).0|
    ensures var rec := Days(db, current, end, timeStart, all, teachersPerDay, start).0[i];
      rec.teachers == DayTeachers(db, rec.date, timeStart, all, teachersPerDay, StartAfter(start, teachersPerDay, |all|, i)).0
    decreases end - current
  {
    var r := Days(db, current, end, timeStart, all, teachersPerDay, start).0;
    DaysStep(db, current, end, timeStart, all, teachersPerDay, start);
    if Weekday(current) >= FirstWeekendDay {
      RoundRobinStart(db, current + 1, end, timeStart, all, teachersPerDay, start, i);
      assert r[i] == Days(db, current + 1, end, timeStart, all, teachersPerDay, start).0[i];
    } else if i > 0 {
      var next := (start + teachersPerDay) % |all|;
      RoundRobinStart(db, current + 1, end, timeStart, all, teachersPerDay, next, i - 1);
      assert r[i] == r[1..][i - 1] == Days(db, current + 1, end, timeStart, all, teachersPerDay, next).0[i - 1];
      assert StartAfter(start, teachersPerDay, |all|, i) == StartAfter(next, teachersPerDay, |all|, i - 1);
    } else {
      assert r[0].date == current;
      assert StartAfter(start, teachersPerDay, |all|, 0) == start;
    }
  }

  /** One day of the loop: a weekend day is skipped, a weekday is recorded first and moves the round-robin on. */
  lemma DaysStep(db: Db, current: int, end: int, timeStart: string, all: seq<string>, teachersPerDay: int, start: nat)
    requires |all| > 0 && teachersPerDay > 0
    requires current <= end
    ensures var r := Days(db, current, end, timeStart, all, teachersPerDay, start).0;
      if Weekday(current) >= FirstWeekendDay then
        r == Days(db, current + 1, end, timeStart, all, teachersPerDay, start).0
      else
        && |r| > 0 && r[0].date == current
        && r[0].teachers == DayTeachers(db, current, timeStart, all, teachersPerDay, start).0
        && r[1..] == Days(db, current + 1, end, timeStart, all, teachersPerDay, (start + teachersPerDay) % |all|).0
  {
  }

  lemma StartInRange(start: int, step: int, n: int)
    requires 0 <= start < n
    ensures (start + 0 * step) % n == start
  {
    DivModUnique(start, n, 0, start);
  }

  lemma StartAfterDays(start: int, step: int, n: int, i: int)
    requires n > 0
    ensures ((start + step) % n + (i - 1) * step) % n == (start + i * step) % n
  {
    ModShift(start + step, (i - 1) * step, n);
    assert start + step + (i - 1) * step == start + i * step;
  }

  function TotalAssigned(records: seq<DayRecord>): (n: nat)
  {
    if |records| == 0 then 0 else TotalAssigned(records[..|records| - 1]) + records[|records| - 1].assignedCount
  }

  function SuccessfulDays(records: seq<DayRecord>): (n: nat)
    ensures n <= |records|
  {
    if |records| == 0 then 0
    else SuccessfulDays(records[..|records| - 1]) + (if records[|records| - 1].assignedCount > 0 then 1 else 0)
  }

  /** No more teachers are assigned than required. */
  lemma {:induction false} TotalAssignedBound(records: seq<DayRecord>, teachersPerDay: int)
    requires forall i :: 0 <= i < |records| ==> records[i].assignedCount <= teachersPerDay
    ensures TotalAssigned(records) <= |records| * teachersPerDay
  {
    if |records| > 0 {
      TotalAssignedBound(records[..|records| - 1], teachersPerDay);
    }
  }

  /** The names of the list that are known to the database (`known`) or not (`!known`), in list order. */
  function Sift(ids: map<string, string>, names: seq<string>, known: bool): seq<string>
    decreases |names|
  {
    if |names| == 0 then []
    else (if (names[0] in ids) == known then [names[0]] else []) + Sift(ids, names[1..], known)
  }

  /** Sifting a list with one more name at its end appends that name, when it belongs, at the end. */
  lemma {:induction false} SiftSnoc(ids: map<string, string>, names: seq<string>, x: string, known: bool)
    ensures Sift(ids, names + [x], known) == Sift(ids, names, known) + (if (x in ids) == known then [x] else [])
    decreases |names|
  {
    if |names| > 0 {
      assert (names + [x])[1..] == names[1..] + [x];
      SiftSnoc(ids, names[1..], x, known);
    }
  }

  /** Sifting partitions the list: together the two sides hold every name, as often as it is given. */
  lemma {:induction false} SiftPartition(ids: map<string, string>, names: seq<string>)
    ensures multiset(Sift(ids, names, true) + Sift(ids, names, false)) == multiset(names)
    decreases |names|
  {
    if |names| > 0 {
      var x, tail := names[0], names[1..];
      SiftPartition(ids, tail);
      assert multiset(names) == multiset([x]) + multiset(tail) by {
        assert names == [x] + tail;
      }
      PartitionStep(x, Sift(ids, tail, true), Sift(ids, tail, false), x in ids);
    }
  }

  /** One name put on the left or the right side adds itself once to the multiset of both sides. */
  lemma PartitionStep<T>(x: T, t: seq<T>, f: seq<T>, left: bool)
    ensures multiset((if left then [x] else []) + t + ((if left then [] else [x]) + f)) == multiset([x]) + multiset(t + f)
  {
  }

  /** Every name goes to the side its database lookup decides. */
  lemma {:induction false} SiftMembers(ids: map<string, string>, names: seq<string>)
    ensures forall x :: x in Sift(ids, names, true) ==> x in ids
    ensures forall x :: x in Sift(ids, names, false) ==> x !in ids
    decreases |names|
  {
    if |names| > 0 {
      SiftMembers(ids, names[1..]);
    }
  }

  /** The loop over `teacher_names`, one name at a time from the left, appending to the side the lookup picks. */
  function SplitTeachers(db: Db, names: seq<string>): (r: TeacherSummary)
    ensures r.databaseTeachers == Sift(db.teacherIds, names, true)
    ensures r.externalTeachers == Sift(db.teacherIds, names, false)
  {
    if |names| == 0 then TeacherSummary([], [])
    else
      var init := names[..|names| - 1];
      var rest := SplitTeachers(db, init);
      var last := names[|names| - 1];
      assert names == init + [last];
      SiftSnoc(db.teacherIds, init, last, true);
      SiftSnoc(db.teacherIds, init, last, false);
      if last in db.teacherIds then TeacherSummary(rest.databaseTeachers + [last], rest.externalTeachers)
      else TeacherSummary(rest.databaseTeachers, rest.externalTeachers + [last])
  }

  /**
   * `all_teachers`: teachers found in the database come first, then the
   * rest, each group in the order given, and every name lands on exactly
   * one side.
   */
  function AllTeachers(db: Db, names: seq<string>): (r: TeacherSummary)
    ensures r.databaseTeachers == Sift(db.teacherIds, names, true)
    ensures r.externalTeachers == Sift(db.teacherIds, names, false)
    ensures multiset(r.databaseTeachers + r.externalTeachers) == multiset(names)
    ensures forall x :: x in r.databaseTeachers ==> x in db.teacherIds
    ensures forall x :: x in r.externalTeachers ==> x !in db.teacherIds
  {
    SiftPartition(db.teacherIds, names);
    SiftMembers(db.teacherIds, names);
    SplitTeachers(db, names)
  }

  /** `assign_invigilators_simple`. */
  function AssignInvigilators(db: Db, dateFrom: Option<int>, dateTo: Option<int>, names: seq<string>,
                              teachersPerDay: int, timeStart: string): (r: AssignResult)
    ensures r.Rejected? <==>
      dateFrom.None? || dateTo.None? || dateFrom.value > dateTo.value || teachersPerDay <= 0 || |names| == 0
    ensures r.Overflowed? <==> !r.Rejected? && dateTo.value >= MaxOrdinal
    ensures r.Assignment? ==>
      && |r.assignments| == r.summary.totalDaysProcessed == WeekdaysBetween(dateFrom.value, dateTo.value)
      && |r.assignments| + |r.skippedDays| == r.summary.totalDays == dateTo.value - dateFrom.value + 1
      && r.summary.totalRequired == |r.assignments| * teachersPerDay
      && r.summary.totalAssigned <= r.summary.totalRequired
      && r.summary.successfulDays <= r.summary.totalDaysProcessed
  {
    if dateFrom.None? || dateTo.None? then Rejected(DateParseError)
    else if dateFrom.value > dateTo.value then Rejected(StartAfterEnd)
    else if teachersPerDay <= 0 then Rejected(NonPositiveTeachersPerDay)
    else if |names| == 0 then Rejected(EmptyTeacherNames)
    else
      var split := AllTeachers(db, names);
      var all := split.databaseTeachers + split.externalTeachers;
      if |all| == 0 then
        assert false;
        Rejected(NoTeachers)
      else if dateTo.value >= MaxOrdinal then
        Overflowed
      else
        var days := Days(db, dateFrom.value, dateTo.value, timeStart, all, teachersPerDay, 0);
        DaysOrdered(db, dateFrom.value, dateTo.value, timeStart, all, teachersPerDay, 0);
        TotalAssignedBound(days.0, teachersPerDay);
        var summary := Summary(
          |days.0|, SuccessfulDays(days.0), |days.0| * teachersPerDay, TotalAssigned(days.0),
          dateTo.value - dateFrom.value + 1, |days.0|, |days.1|);
        Assignment(days.0, days.1, split, summary)
  }
}
