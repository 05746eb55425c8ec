/**
 * The responses page (React): the map of submitted availability records, the
 * read-only grid decoded from a teacher's slot list, the Accept button that
 * copies a teacher's slots into the page's `avaSlots`, and `handleGenerate`,
 * which builds the timetable request for the selected class.
 */
module ResponsePage {
  import opened Common
  import opened SlotGrid
  import opened AvailabilityPage

  // ---------------------------------------------------------------------------
  // The availability map

  /** A record of `/availability/all`: `teacher_id` and `authentic_unavailability`, either possibly missing. */
  datatype AvailRecord = AvailRecord(teacherId: Option<string>, authenticUnavailability: Option<seq<int>>)

  /** A `teacher_id` that passes `if (key)`: present and not the empty string. */
  predicate Truthy(key: Option<string>) {
    key.Some? && key.value != ""
  }

  /** `map[rec.teacher_id] = rec` for every record in order, skipping falsy keys. */
  function AvailabilityMap(recs: seq<AvailRecord>): (m: map<string, AvailRecord>)
    ensures forall k :: k in m <==> exists i :: 0 <= i < |recs| && recs[i].teacherId == Some(k) && k != ""
    decreases |recs|
  {
    if |recs| == 0 then map[]
    else
      var init := recs[..|recs| - 1];
      assert forall i :: 0 <= i < |init| ==> init[i] == recs[i];
      var m := AvailabilityMap(init);
      var last := recs[|recs| - 1];
      if Truthy(last.teacherId) then m[last.teacherId.value := last] else m
  }

  /** A key maps to the last record that carries it: later records override earlier ones. */
  lemma {:induction false} AvailabilityMapLatest(recs: seq<AvailRecord>, i: nat)
    requires i < |recs| && Truthy(recs[i].teacherId)
    requires forall j :: i < j < |recs| ==> recs[j].teacherId != recs[i].teacherId
    ensures AvailabilityMap(recs)[recs[i].teacherId.value] == recs[i]
    decreases |recs|
  {
    var init := recs[..|recs| - 1];
    if i < |recs| - 1 {
      assert init[i] == recs[i];
      AvailabilityMapLatest(init, i);
    }
  }

  // ---------------------------------------------------------------------------
  // The read-only grid

  /** JavaScript's `%`: the remainder takes the sign of the dividend. */
  function JsRem(x: int, n: int): (r: int)
    requires n > 0
    ensures x >= 0 ==> r == x % n
    ensures x < 0 ==> -n < r <= 0
  {
    if x >= 0 then x % n else -((-x) % n)
  }

  /**
   * One index of `unavailable.forEach`: day `Math.floor(index / 7)` and hour
   * `index % 7`; the cell is set to 1 only when that day exists.
   */
  function Mark(g: Grid, x: int): (r: Grid)
    requires Shaped(g)
    ensures Shaped(r)
  {
    var d := x / 7;
    if 0 <= d < Days then g[d := g[d][JsRem(x, 7) := 1]] else g
  }

  /** The grid after marking the indices xs in order, starting from all zeros. */
  function DecodeList(xs: seq<int>): (r: Grid)
    ensures Shaped(r) && Binary(r)
    ensures forall d, h :: InGrid(d, h) ==> (r[d][h] == 1 <==> FlatIndex(d, h) in xs)
    decreases |xs|
  {
    if |xs| == 0 then InitialGrid()
    else
      var init := xs[..|xs| - 1];
      var x := xs[|xs| - 1];
      var g := DecodeList(init);
      assert xs == init + [x];
      FlatIndexBijection();
      assert 0 <= x < WeekSlots ==> InGrid(x / 7, x % 7) && FlatIndex(x / 7, x % 7) == x;
      assert !(0 <= x < WeekSlots) ==> !(0 <= x / 7 < Days);
      Mark(g, x)
  }

  /** The modal's grid: `authentic_unavailability || []` decoded; indices whose day does not exist are ignored. */
  function Decode(unavailable: Option<seq<int>>): (r: Grid)
    ensures Shaped(r) && Binary(r)
    ensures forall d, h :: InGrid(d, h) ==> (r[d][h] == 1 <==> unavailable.Some? && FlatIndex(d, h) in unavailable.value)
  {
    match unavailable
    case None => DecodeList([])
    case Some(xs) => DecodeList(xs)
  }

  /** Decoding what the availability page submits gives back the teacher's grid. */
  lemma DecodeFlatten(g: Grid)
    requires Shaped(g) && Binary(g)
    ensures Decode(Some(Flatten(g))) == g
  {
    var r := Decode(Some(Flatten(g)));
    FlattenSlots(g);
    forall d | 0 <= d < Days
      ensures r[d] == g[d]
    {
      forall h | 0 <= h < HoursPerDay
        ensures r[d][h] == g[d][h]
      {
        assert InGrid(d, h);
      }
    }
  }

  /** Decoding the slots a payload flattens from a 0/1 grid gives back that grid. */
  lemma SubmitThenDecode(teacherId: Option<string>, g: Grid)
    requires Shaped(g) && Binary(g) && Submit(teacherId, g).Some?
    ensures Decode(Some(Submit(teacherId, g).value.slots)) == g
  {
    assert Submit(teacherId, g).value.slots == Flatten(g);
    DecodeFlatten(g);
  }

  // ---------------------------------------------------------------------------
  // handleGenerate

  /**
   * A teacher row of a class: its id, name, subject list (`row.subject`,
   * possibly missing) and `parseInt(row.no_of_classes)`, None standing for NaN.
   */
  datatype TeacherRow = TeacherRow(id: string, name: string, subjects: Option<seq<string>>, classes: Option<int>)

  /** A document of `/input/input-data`: a class name (possibly missing) and its teacher rows. */
  datatype ClassDoc = ClassDoc(className: Option<string>, teachers: seq<TeacherRow>)

  /** `parseInt(row.no_of_classes) || 0`. */
  function RowHours(row: TeacherRow): int {
    match row.classes
    case None => 0
    case Some(n) => n
  }

  function SubjectsOf(row: TeacherRow): seq<string> {
    match row.subjects
    case None => []
    case Some(l) => l
  }

  /** `acc[s] || 0`. */
  function Get(acc: map<string, int>, s: string): int {
    if s in acc then acc[s] else 0
  }

  /** `subjects.forEach(s => acc[s] = (acc[s] || 0) + h)`. */
  function AddSubjects(acc: map<string, int>, subjects: seq<string>, h: int): (r: map<string, int>)
    decreases |subjects|
  {
    if |subjects| == 0 then acc
    else
      var a := AddSubjects(acc, subjects[..|subjects| - 1], h);
      var s := subjects[|subjects| - 1];
      a[s := Get(a, s) + h]
  }

  /** The `teacher.reduce` that builds the class's `subjects` object. */
  function SubjectHours(rows: seq<TeacherRow>): map<string, int>
    decreases |rows|
  {
    if |rows| == 0 then map[]
    else
      var last := rows[|rows| - 1];
      AddSubjects(SubjectHours(rows[..|rows| - 1]), SubjectsOf(last), RowHours(last))
  }

  /** Every listing of a subject by a row, with that row's hours, in row then subject order. */
  function Listings(rows: seq<TeacherRow>): (ls: seq<(string, int)>)
    decreases |rows|
  {
    if |rows| == 0 then []
    else
      var last := rows[|rows| - 1];
      Listings(rows[..|rows| - 1]) + Pairs(SubjectsOf(last), RowHours(last))
  }

  /** One row's listings: each of its subjects with the row's hours. */
  function Pairs(subjects: seq<string>, h: int): (ls: seq<(string, int)>) {
    seq(|subjects|, k requires 0 <= k < |subjects| => (subjects[k], h))
  }

  /** The total hours of the listings of s. */
  function SumFor(ls: seq<(string, int)>, s: string): int
    decreases |ls|
  {
    if |ls| == 0 then 0
    else SumFor(ls[..|ls| - 1], s) + (if ls[|ls| - 1].0 == s then ls[|ls| - 1].1 else 0)
  }

  lemma {:induction false} SumForConcat(a: seq<(string, int)>, b: seq<(string, int)>, s: string)
    ensures SumFor(a + b, s) == SumFor(a, s) + SumFor(b, s)
    decreases |b|
  {
    if |b| == 0 {
      assert a + b == a;
    } else {
      var b' := b[..|b| - 1];
      SumForConcat(a, b', s);
      assert (a + b)[..|a + b| - 1] == a + b';
      assert (a + b)[|a + b| - 1] == b[|b| - 1];
    }
  }

  /** Adding one row's subjects adds that row's hours once per listing. */
  lemma {:induction false} AddSubjectsSum(acc: map<string, int>, subjects: seq<string>, h: int)
    ensures var r := AddSubjects(acc, subjects, h);
      && (forall s :: s in r <==> s in acc || s in subjects)
      && forall s :: Get(r, s) == Get(acc, s) + SumFor(Pairs(subjects, h), s)
    decreases |subjects|
  {
    var ls := Pairs(subjects, h);
    if |subjects| > 0 {
      var init := subjects[..|subjects| - 1];
      AddSubjectsSum(acc, init, h);
      assert ls[..|ls| - 1] == Pairs(init, h);
      assert subjects == init + [subjects[|subjects| - 1]];
    }
  }

  /** A row lists s. */
  predicate Lists(row: TeacherRow, s: string) {
    row.subjects.Some? && s in row.subjects.value
  }

  /**
   * The class's `subjects` object has a key for exactly the subjects some row
   * lists, and a subject's value is the sum of `parseInt(no_of_classes) || 0`
   * over its listings.
   */
  lemma {:induction false} SubjectHoursSum(rows: seq<TeacherRow>)
    ensures forall s :: s in SubjectHours(rows) <==> exists i :: 0 <= i < |rows| && Lists(rows[i], s)
    ensures forall s :: Get(SubjectHours(rows), s) == SumFor(Listings(rows), s)
    decreases |rows|
  {
    if |rows| > 0 {
      var init := rows[..|rows| - 1];
      var last := rows[|rows| - 1];
      SubjectHoursSum(init);
      AddSubjectsSum(SubjectHours(init), SubjectsOf(last), RowHours(last));
      var ls := Pairs(SubjectsOf(last), RowHours(last));
      forall s
        ensures SumFor(Listings(rows), s) == SumFor(Listings(init), s) + SumFor(ls, s)
      {
        SumForConcat(Listings(init), ls, s);
      }
      forall s
        ensures s in SubjectHours(rows) <==> exists i :: 0 <= i < |rows| && Lists(rows[i], s)
      {
        if s in SubjectHours(init) {
          var i :| 0 <= i < |init| && Lists(init[i], s);
          assert init[i] == rows[i];
        }
        if exists i :: 0 <= i < |rows| && Lists(rows[i], s) {
          var i :| 0 <= i < |rows| && Lists(rows[i], s);
          if i < |init| {
            assert init[i] == rows[i];
          }
        }
      }
    }
  }

  /** The first document whose `class_name` is the selected class. */
  function FindClass(docs: seq<ClassDoc>, selected: string): (r: Option<nat>)
    ensures r.Some? ==> r.value < |docs| && docs[r.value].className == Some(selected)
    ensures r.Some? ==> forall i :: 0 <= i < r.value ==> docs[i].className != Some(selected)
    ensures r.None? ==> forall i :: 0 <= i < |docs| ==> docs[i].className != Some(selected)
    decreases |docs|
  {
    if |docs| == 0 then None
    else if docs[0].className == Some(selected) then Some(0)
    else
      match FindClass(docs[1..], selected)
      case None => None
      case Some(i) => Some(i + 1)
  }

  /** `avaSlots[row.id] || []`: the accepted slots of a teacher, or none. */
  function SlotsFor(avaSlots: map<string, seq<int>>, id: string): seq<int> {
    if id in avaSlots then avaSlots[id] else []
  }

  datatype GroupPayload = GroupPayload(group: string, subjects: map<string, int>)
  datatype TeacherPayload = TeacherPayload(name: string, subject: Option<seq<string>>)
  datatype SlotsPayload = SlotsPayload(name: string, slots: seq<int>)
  datatype Request = Request(studentGroups: seq<GroupPayload>, teachers: seq<TeacherPayload>, unavailability: seq<SlotsPayload>)

  /**
   * `handleGenerate`: the request for the first document of the selected
   * class, with one group carrying the per-subject hour sums, one teacher and
   * one unavailability entry per teacher row. None when no document has that
   * class (the page's `teacher.reduce` then throws and nothing is sent).
   */
  function Generate(docs: seq<ClassDoc>, selected: string, avaSlots: map<string, seq<int>>): (r: Option<Request>)
    ensures r.None? <==> forall i :: 0 <= i < |docs| ==> docs[i].className != Some(selected)
    ensures r.Some? ==>
              var rows := docs[FindClass(docs, selected).value].teachers;
              && r.value.studentGroups == [GroupPayload(selected, SubjectHours(rows))]
              && |r.value.teachers| == |rows| && |r.value.unavailability| == |rows|
              && (forall i :: 0 <= i < |rows| ==> r.value.teachers[i] == TeacherPayload(rows[i].name, rows[i].subjects))
              && forall i :: 0 <= i < |rows| ==> r.value.unavailability[i] == SlotsPayload(rows[i].name, SlotsFor(avaSlots, rows[i].id))
  {
    match FindClass(docs, selected)
    case None => None
    case Some(k) =>
      var rows := docs[k].teachers;
      Some(Request(
        [GroupPayload(selected, SubjectHours(rows))],
        seq(|rows|, i requires 0 <= i < |rows| => TeacherPayload(rows[i].name, rows[i].subjects)),
        seq(|rows|, i requires 0 <= i < |rows| => SlotsPayload(rows[i].name, SlotsFor(avaSlots, rows[i].id)))))
  }

  // ---------------------------------------------------------------------------
  // Accept

  /**
   * The Accept button: `avaSlots[id]` becomes the teacher's
   * `authentic_unavailability`, or [] when the map has no record or the record
   * has no list; every other key keeps its value. None when the availability
   * map has not been loaded (the lookup on null throws).
   */
  function Accept(avaSlots: map<string, seq<int>>, availability: Option<map<string, AvailRecord>>, id: string): (r: Option<map<string, seq<int>>>)
    ensures r.None? <==> availability.None?
    ensures r.Some? ==> r.value.Keys == avaSlots.Keys + {id}
    ensures r.Some? ==> forall k :: k in avaSlots && k != id ==> r.value[k] == avaSlots[k]
    ensures r.Some? && id in availability.value && availability.value[id].authenticUnavailability.Some? ==>
              r.value[id] == availability.value[id].authenticUnavailability.value
    ensures r.Some? && !(id in availability.value && availability.value[id].authenticUnavailability.Some?) ==> r.value[id] == []
  {
    match availability
    case None => None
    case Some(m) =>
      var slots := if id in m && m[id].authenticUnavailability.Some? then m[id].authenticUnavailability.value else [];
      Some(avaSlots[id := slots])
  }

  /**
   * After accepting a teacher's response, the request built for a class sends
   * exactly those slots for every row with that teacher's id, and leaves the
   * other rows' slots as they were.
   */
  lemma AcceptThenGenerate(docs: seq<ClassDoc>, selected: string, avaSlots: map<string, seq<int>>,
                           availability: map<string, AvailRecord>, id: string)
    requires FindClass(docs, selected).Some?
    ensures var accepted := Accept(avaSlots, Some(availability), id).value;
      var before := Generate(docs, selected, avaSlots).value;
      var after := Generate(docs, selected, accepted).value;
      var rows := docs[FindClass(docs, selected).value].teachers;
      && |after.unavailability| == |rows|
      && (forall i :: 0 <= i < |rows| && rows[i].id == id ==> after.unavailability[i].slots == accepted[id])
      && forall i :: 0 <= i < |rows| && rows[i].id != id ==> after.unavailability[i] == before.unavailability[i]
  {
  }
}
