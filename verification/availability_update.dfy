/**
 * Availability bookkeeping after a timetable is stored
 * (backend/app/services/availability_update_service.py): the teacher to
 * subjects mapping built from the input documents, the teacher lookup for
 * a class and subject, the set-union update of a teacher's unavailable
 * slots, the status report, and the driver that ties them together.
 *
 * The collections are passed in as sequences in collection order:
 * `find_one` is the first matching document, `insert_one` appends and
 * `update_one` rewrites the first match.
 */
module AvailabilityUpdate {
  import opened Common

  /** A teacher entry of an input document; `name` may be missing, and a missing `subject` list is empty. */
  datatype InputTeacher = InputTeacher(id: Option<string>, name: Option<string>, email: Option<string>, subjects: seq<string>)
  /** An input document: the class it describes (`class_name`, possibly absent) and its teachers. */
  datatype InputDoc = InputDoc(className: Option<string>, teachers: seq<InputTeacher>)
  /** A document of the teachers collection; the only writer of the collection always sets all three fields. */
  datatype StoredTeacher = StoredTeacher(id: string, name: string, email: string)
  /** The `{id, name, email}` dict the lookup returns. */
  datatype TeacherInfo = TeacherInfo(id: Option<string>, name: Option<string>, email: Option<string>)
  /** A document of the availability collection; missing `slots` is [] and missing `submitted` is false. */
  datatype AvailRecord = AvailRecord(teacherId: Option<string>, slots: seq<int>, submitted: bool)
  /** A stored timetable: its class and its subject to slot-positions table, in dict order. */
  datatype Timetable = Timetable(classId: Option<string>, ttable: seq<(string, seq<int>)>)

  // ---------------------------------------------------------------------------
  // _create_teacher_subject_mapping

  /**
   * The mapping: teacher names in first-seen order (the dict's key order)
   * and, for each, every subject listed for that name. The final
   * `list(set(...))` makes each value duplicate-free in an unspecified
   * order, so values are sets here.
   */
  datatype Mapping = Mapping(names: seq<string>, subjects: map<string, set<string>>)

  /** A teacher entry the mapping takes in: non-empty name and non-empty subject list. */
  /** `teacher.get("name", "")`: the name, or "" when the entry has none. */
  function NameOf(t: InputTeacher): string {
    match t.name
    case Some(n) => n
    case None => ""
  }

  predicate Listed(t: InputTeacher) {
    |NameOf(t)| > 0 && |t.subjects| > 0
  }

  function AddTeacher(m: Mapping, t: InputTeacher): Mapping {
    if !Listed(t) then m
    else if NameOf(t) in m.subjects then m.(subjects := m.subjects[NameOf(t) := m.subjects[NameOf(t)] + Elems(t.subjects)])
    else Mapping(m.names + [NameOf(t)], m.subjects[NameOf(t) := Elems(t.subjects)])
  }

  function AddTeachers(m: Mapping, ts: seq<InputTeacher>): Mapping
    decreases |ts|
  {
    if |ts| == 0 then m else AddTeachers(AddTeacher(m, ts[0]), ts[1..])
  }

  /** The teacher entries of all documents, document after document. */
  function AllTeachers(docs: seq<InputDoc>): seq<InputTeacher>
    decreases |docs|
  {
    if |docs| == 0 then [] else docs[0].teachers + AllTeachers(docs[1..])
  }

  /** The nested loop over documents and their teachers, as one pass over all entries. */
  function TeacherSubjectMapping(docs: seq<InputDoc>): Mapping {
    AddTeachers(Mapping([], map[]), AllTeachers(docs))
  }

  /** The key order lists exactly the keys, each once. */
  ghost predicate Consistent(m: Mapping) {
    NoDups(m.names) && Elems(m.names) == m.subjects.Keys
  }

  lemma AddTeacherFacts(m: Mapping, t: InputTeacher)
    requires Consistent(m)
    ensures Consistent(AddTeacher(m, t))
    ensures forall name :: name in AddTeacher(m, t).subjects <==> name in m.subjects || (Listed(t) && NameOf(t) == name)
    ensures forall name, subject :: name in AddTeacher(m, t).subjects ==>
      (subject in AddTeacher(m, t).subjects[name] <==>
         (name in m.subjects && subject in m.subjects[name]) || (Listed(t) && NameOf(t) == name && subject in t.subjects))
  {
    var r := AddTeacher(m, t);
    if Listed(t) && NameOf(t) !in m.subjects {
      assert NameOf(t) !in m.names;
      assert Elems(r.names) == Elems(m.names) + {NameOf(t)};
    }
  }

  /** Some listed entry carries this name. */
  ghost predicate NameListed(ts: seq<InputTeacher>, name: string) {
    exists t :: t in ts && Listed(t) && NameOf(t) == name
  }

  /** Some listed entry with this name lists the subject. */
  ghost predicate SubjectListed(ts: seq<InputTeacher>, name: string, subject: string) {
    exists t :: t in ts && Listed(t) && NameOf(t) == name && subject in t.subjects
  }

  lemma {:induction false} AddTeachersKeys(m: Mapping, ts: seq<InputTeacher>)
    requires Consistent(m)
    ensures Consistent(AddTeachers(m, ts))
    ensures forall name :: name in AddTeachers(m, ts).subjects <==> name in m.subjects || NameListed(ts, name)
    decreases |ts|
  {
    if |ts| > 0 {
      var m1 := AddTeacher(m, ts[0]);
      AddTeacherFacts(m, ts[0]);
      AddTeachersKeys(m1, ts[1..]);
      assert AddTeachers(m, ts) == AddTeachers(m1, ts[1..]);
      forall name ensures NameListed(ts, name) <==> (Listed(ts[0]) && NameOf(ts[0]) == name) || NameListed(ts[1..], name) {
        if NameListed(ts, name) {
          var t :| t in ts && Listed(t) && NameOf(t) == name;
          if t != ts[0] {
            assert t in ts[1..];
          }
        }
      }
    }
  }

  lemma {:induction false} AddTeachersValues(m: Mapping, ts: seq<InputTeacher>)
    requires Consistent(m)
    ensures forall name, subject :: name in AddTeachers(m, ts).subjects ==>
      (subject in AddTeachers(m, ts).subjects[name] <==>
         (name in m.subjects && subject in m.subjects[name]) || SubjectListed(ts, name, subject))
    decreases |ts|
  {
    if |ts| > 0 {
      var m1 := AddTeacher(m, ts[0]);
      AddTeacherFacts(m, ts[0]);
      AddTeachersValues(m1, ts[1..]);
      assert AddTeachers(m, ts) == AddTeachers(m1, ts[1..]);
      forall name, subject
        ensures SubjectListed(ts, name, subject) <==>
          (Listed(ts[0]) && NameOf(ts[0]) == name && subject in ts[0].subjects) || SubjectListed(ts[1..], name, subject)
      {
        if SubjectListed(ts, name, subject) {
          var t :| t in ts && Listed(t) && NameOf(t) == name && subject in t.subjects;
          if t != ts[0] {
            assert t in ts[1..];
          }
        }
      }
    }
  }

  /**
   * The mapping's keys are exactly the non-empty names of teacher entries
   * with a non-empty subject list, over all documents, each listed once in
   * the key order; a name's value holds exactly the subjects listed for it.
   */
  lemma MappingContents(docs: seq<InputDoc>)
    ensures var m := TeacherSubjectMapping(docs);
      && NoDups(m.names) && Elems(m.names) == m.subjects.Keys
      && (forall name :: name in m.subjects <==> NameListed(AllTeachers(docs), name))
      && (forall name, subject :: name in m.subjects ==>
            (subject in m.subjects[name] <==> SubjectListed(AllTeachers(docs), name, subject)))
  {
    var m0 := Mapping([], map[]);
    assert Elems(m0.names) == {};
    AddTeachersKeys(m0, AllTeachers(docs));
    AddTeachersValues(m0, AllTeachers(docs));
  }

  /** An entry of a document is among all entries. */
  lemma {:induction false} InAllTeachers(docs: seq<InputDoc>, d: nat, k: nat)
    requires d < |docs| && k < |docs[d].teachers|
    ensures docs[d].teachers[k] in AllTeachers(docs)
    decreases d
  {
    if d > 0 {
      InAllTeachers(docs[1..], d - 1, k);
      assert docs[1..][d - 1] == docs[d];
    }
  }

  // ---------------------------------------------------------------------------
  // _find_teacher_for_subject_in_input_data

  /** The dict built from an input entry: `teacher.get("id")`, `teacher.get("name")`, `teacher.get("email")`, each None when missing. */
  function InfoOf(t: InputTeacher): TeacherInfo {
    TeacherInfo(t.id, t.name, t.email)
  }

  function StoredInfo(t: StoredTeacher): TeacherInfo {
    TeacherInfo(Some(t.id), Some(t.name), Some(t.email))
  }

  /** `teachers_collection.find_one({"name": name})`. */
  function FindByName(store: seq<StoredTeacher>, name: string): (r: Option<StoredTeacher>)
    ensures r.Some? ==> r.value in store && r.value.name == name
    ensures r.None? ==> forall i :: 0 <= i < |store| ==> store[i].name != name
    decreases |store|
  {
    if |store| == 0 then None
    else if store[0].name == name then Some(store[0])
    else FindByName(store[1..], name)
  }

  /** The first teacher of the list whose subjects include `subject`. */
  function FirstTeaching(ts: seq<InputTeacher>, subject: string): (r: Option<InputTeacher>)
    decreases |ts|
  {
    if |ts| == 0 then None
    else if subject in ts[0].subjects then Some(ts[0])
    else FirstTeaching(ts[1..], subject)
  }

  /** The first pass: documents of this class, in order, and their teachers, in order. */
  function InClass(classId: Option<string>, subject: string, docs: seq<InputDoc>): Option<TeacherInfo>
    decreases |docs|
  {
    if |docs| == 0 then None
    else
      var here := if docs[0].className == classId then FirstTeaching(docs[0].teachers, subject) else None;
      if here.Some? then Some(InfoOf(here.value)) else InClass(classId, subject, docs[1..])
  }

  /** The fallback: mapping keys in order; the first teaching the subject that the store knows by name. */
  function FromMapping(subject: string, names: seq<string>, subjects: map<string, set<string>>, store: seq<StoredTeacher>): Option<TeacherInfo>
    decreases |names|
  {
    if |names| == 0 then None
    else
      var name := names[0];
      var found := if name in subjects && subject in subjects[name] then FindByName(store, name) else None;
      if found.Some? then Some(StoredInfo(found.value)) else FromMapping(subject, names[1..], subjects, store)
  }

  function FindTeacherInInput(classId: Option<string>, subject: string, docs: seq<InputDoc>, m: Mapping, store: seq<StoredTeacher>): Option<TeacherInfo> {
    var here := InClass(classId, subject, docs);
    if here.Some? then here else FromMapping(subject, m.names, m.subjects, store)
  }

  /** Position (d, k) comes before (d', k') in document-then-teacher order. */
  predicate Before(d: int, k: int, d': int, k': int) {
    d < d' || (d == d' && k < k')
  }

  /** Entry k of document d is a class-specific match. */
  predicate ClassMatch(classId: Option<string>, subject: string, docs: seq<InputDoc>, d: int, k: int) {
    0 <= d < |docs| && docs[d].className == classId && 0 <= k < |docs[d].teachers| && subject in docs[d].teachers[k].subjects
  }

  lemma {:induction false} FirstTeachingIsFirst(ts: seq<InputTeacher>, subject: string)
    ensures FirstTeaching(ts, subject).None? <==> forall k :: 0 <= k < |ts| ==> subject !in ts[k].subjects
    ensures FirstTeaching(ts, subject).Some? ==>
      exists k :: 0 <= k < |ts| && ts[k] == FirstTeaching(ts, subject).value &&
        subject in ts[k].subjects && forall j :: 0 <= j < k ==> subject !in ts[j].subjects
    decreases |ts|
  {
    if |ts| > 0 && subject !in ts[0].subjects {
      FirstTeachingIsFirst(ts[1..], subject);
      if FirstTeaching(ts, subject).Some? {
        var k :| 0 <= k < |ts[1..]| && ts[1..][k] == FirstTeaching(ts, subject).value &&
          subject in ts[1..][k].subjects && forall j :: 0 <= j < k ==> subject !in ts[1..][j].subjects;
        assert ts[k + 1] == ts[1..][k];
        forall j | 0 <= j < k + 1 ensures subject !in ts[j].subjects {
          if j > 0 { assert ts[j] == ts[1..][j - 1]; }
        }
      } else {
        forall k | 0 <= k < |ts| ensures subject !in ts[k].subjects {
          if k > 0 { assert ts[k] == ts[1..][k - 1]; }
        }
      }
    }
  }

  /**
   * The class-specific pass finds the first matching teacher in document
   * then teacher order, and finds nothing exactly when no document of the
   * class lists a teacher of the subject.
   */
  lemma {:induction false} InClassIsFirst(classId: Option<string>, subject: string, docs: seq<InputDoc>)
    ensures InClass(classId, subject, docs).None? <==>
      forall d, k :: !ClassMatch(classId, subject, docs, d, k)
    ensures InClass(classId, subject, docs).Some? ==>
      exists d, k :: ClassMatch(classId, subject, docs, d, k) &&
        InClass(classId, subject, docs).value == InfoOf(docs[d].teachers[k]) &&
        forall d', k' :: Before(d', k', d, k) ==> !ClassMatch(classId, subject, docs, d', k')
    decreases |docs|
  {
    if |docs| > 0 {
      var here := if docs[0].className == classId then FirstTeaching(docs[0].teachers, subject) else None;
      FirstTeachingIsFirst(docs[0].teachers, subject);
      InClassIsFirst(classId, subject, docs[1..]);
      forall d, k | 0 < d < |docs|
        ensures ClassMatch(classId, subject, docs, d, k) <==> ClassMatch(classId, subject, docs[1..], d - 1, k)
      {
        assert docs[1..][d - 1] == docs[d];
      }
      if here.Some? {
        var k :| 0 <= k < |docs[0].teachers| && docs[0].teachers[k] == here.value &&
          subject in docs[0].teachers[k].subjects && forall j :: 0 <= j < k ==> subject !in docs[0].teachers[j].subjects;
        assert ClassMatch(classId, subject, docs, 0, k);
        forall d', k' | Before(d', k', 0, k) ensures !ClassMatch(classId, subject, docs, d', k') {
        }
      } else {
        forall k | true ensures !ClassMatch(classId, subject, docs, 0, k) {
        }
        if InClass(classId, subject, docs[1..]).Some? {
          var d, k :| ClassMatch(classId, subject, docs[1..], d, k) &&
            InClass(classId, subject, docs[1..]).value == InfoOf(docs[1..][d].teachers[k]) &&
            forall d', k' :: Before(d', k', d, k) ==> !ClassMatch(classId, subject, docs[1..], d', k');
          assert ClassMatch(classId, subject, docs, d + 1, k);
          forall d', k' | Before(d', k', d + 1, k) ensures !ClassMatch(classId, subject, docs, d', k') {
            if d' > 0 {
              assert Before(d' - 1, k', d, k);
            }
          }
        } else {
          forall d, k ensures !ClassMatch(classId, subject, docs, d, k) {
            if d > 0 {
              assert !ClassMatch(classId, subject, docs[1..], d - 1, k);
            }
          }
        }
      }
    }
  }

  /**
   * The store fallback is consulted only when no class-specific teacher
   * exists; when it is, the answer is the first key, in key order, that
   * teaches the subject and that the store knows by name.
   */
  lemma FindTeacherInInputCases(classId: Option<string>, subject: string, docs: seq<InputDoc>, m: Mapping, store: seq<StoredTeacher>)
    ensures (exists d, k :: ClassMatch(classId, subject, docs, d, k)) ==>
      FindTeacherInInput(classId, subject, docs, m, store) == InClass(classId, subject, docs)
    ensures (forall d, k :: !ClassMatch(classId, subject, docs, d, k)) ==>
      FindTeacherInInput(classId, subject, docs, m, store) == FromMapping(subject, m.names, m.subjects, store)
  {
    InClassIsFirst(classId, subject, docs);
  }

  /** The fallback answers with the first key that teaches the subject and is known to the store. */
  lemma {:induction false} FromMappingIsFirst(subject: string, names: seq<string>, subjects: map<string, set<string>>, store: seq<StoredTeacher>)
    ensures FromMapping(subject, names, subjects, store).None? <==>
      forall i :: 0 <= i < |names| && names[i] in subjects && subject in subjects[names[i]] ==> FindByName(store, names[i]).None?
    ensures FromMapping(subject, names, subjects, store).Some? ==>
      exists i :: 0 <= i < |names| && names[i] in subjects && subject in subjects[names[i]] &&
        FindByName(store, names[i]).Some? &&
        FromMapping(subject, names, subjects, store).value == StoredInfo(FindByName(store, names[i]).value)
    decreases |names|
  {
    if |names| > 0 {
      FromMappingIsFirst(subject, names[1..], subjects, store);
      var name := names[0];
      var found := if name in subjects && subject in subjects[name] then FindByName(store, name) else None;
      if found.None? {
        forall i | 0 <= i < |names| && names[i] in subjects && subject in subjects[names[i]]
          ensures (FromMapping(subject, names, subjects, store).None? ==> FindByName(store, names[i]).None?)
        {
          if i > 0 { assert names[i] == names[1..][i - 1]; }
        }
        if FromMapping(subject, names, subjects, store).Some? {
          var i :| 0 <= i < |names[1..]| && names[1..][i] in subjects && subject in subjects[names[1..][i]] &&
            FindByName(store, names[1..][i]).Some? &&
            FromMapping(subject, names[1..], subjects, store).value == StoredInfo(FindByName(store, names[1..][i]).value);
          assert names[i + 1] == names[1..][i];
        }
      }
    }
  }

  // ---------------------------------------------------------------------------
  // _find_teacher_for_subject

  /** A teacher document with an optional `subjects` field. */
  datatype SubjectTeacher = SubjectTeacher(id: string, name: string, subjects: Option<seq<string>>)

  predicate TeachesSubject(t: SubjectTeacher, subject: string) {
    t.subjects.Some? && subject in t.subjects.value
  }

  function FindTeacherForSubject(subject: string, ts: seq<SubjectTeacher>): (r: Option<SubjectTeacher>)
    decreases |ts|
  {
    if |ts| == 0 then None
    else if TeachesSubject(ts[0], subject) then Some(ts[0])
    else FindTeacherForSubject(subject, ts[1..])
  }

  /** The first teacher whose `subjects` field lists the subject, or nothing when there is none. */
  lemma {:induction false} FindTeacherForSubjectIsFirst(subject: string, ts: seq<SubjectTeacher>)
    ensures FindTeacherForSubject(subject, ts).None? <==> forall k :: 0 <= k < |ts| ==> !TeachesSubject(ts[k], subject)
    ensures FindTeacherForSubject(subject, ts).Some? ==>
      exists k :: 0 <= k < |ts| && ts[k] == FindTeacherForSubject(subject, ts).value && TeachesSubject(ts[k], subject) &&
        forall j :: 0 <= j < k ==> !TeachesSubject(ts[j], subject)
    decreases |ts|
  {
    if |ts| > 0 && !TeachesSubject(ts[0], subject) {
      FindTeacherForSubjectIsFirst(subject, ts[1..]);
      if FindTeacherForSubject(subject, ts).Some? {
        var k :| 0 <= k < |ts[1..]| && ts[1..][k] == FindTeacherForSubject(subject, ts).value && TeachesSubject(ts[1..][k], subject) &&
          forall j :: 0 <= j < k ==> !TeachesSubject(ts[1..][j], subject);
        assert ts[k + 1] == ts[1..][k];
        forall j | 0 <= j < k + 1 ensures !TeachesSubject(ts[j], subject) {
          if j > 0 { assert ts[j] == ts[1..][j - 1]; }
        }
      } else {
        forall k | 0 <= k < |ts| ensures !TeachesSubject(ts[k], subject) {
          if k > 0 { assert ts[k] == ts[1..][k - 1]; }
        }
      }
    }
  }

  // ---------------------------------------------------------------------------
  // _update_teacher_availability

  /** The first record of the collection for this teacher. */
  function FindRecord(store: seq<AvailRecord>, id: Option<string>): (r: Option<nat>)
    ensures r.Some? ==>
      r.value < |store| && store[r.value].teacherId == id &&
      forall i :: 0 <= i < r.value ==> store[i].teacherId != id
    ensures r.None? ==> forall i :: 0 <= i < |store| ==> store[i].teacherId != id
    decreases |store|
  {
    if |store| == 0 then None
    else if store[0].teacherId == id then Some(0)
    else match FindRecord(store[1..], id)
      case None => None
      case Some(i) => Some(i + 1)
  }

  /**
   * The update: a teacher without a record gets one holding exactly the
   * occupied slots; otherwise the first record's slots become the union of
   * the old and the occupied slots. Either way the record is `submitted`.
   */
  function UpdateAvailability(store: seq<AvailRecord>, id: Option<string>, occupied: seq<int>): seq<AvailRecord> {
    match FindRecord(store, id)
    case None => store + [AvailRecord(id, occupied, true)]
    case Some(k) => store[k := AvailRecord(id, Dedup(store[k].slots + occupied), true)]
  }

  /** The slots recorded for a teacher: those of its first record, or none. */
  function SlotsOf(store: seq<AvailRecord>, id: Option<string>): set<int> {
    match FindRecord(store, id)
    case None => {}
    case Some(k) => Elems(store[k].slots)
  }

  /**
   * After the update the teacher's slots are exactly the old ones plus the
   * occupied ones, the record is submitted, and every other teacher's
   * recorded slots are unchanged.
   */
  lemma UpdateAvailabilityUnion(store: seq<AvailRecord>, id: Option<string>, occupied: seq<int>, other: Option<string>)
    ensures var r := UpdateAvailability(store, id, occupied);
      && FindRecord(r, id).Some?
      && r[FindRecord(r, id).value].submitted
      && SlotsOf(r, id) == SlotsOf(store, id) + Elems(occupied)
      && (other != id ==> SlotsOf(r, other) == SlotsOf(store, other))
  {
    UpdateOwnRecord(store, id, occupied);
    if other != id {
      UpdateOtherRecords(store, id, occupied, other);
    }
  }

  lemma UpdateOwnRecord(store: seq<AvailRecord>, id: Option<string>, occupied: seq<int>)
    ensures var r := UpdateAvailability(store, id, occupied);
      && FindRecord(r, id).Some?
      && r[FindRecord(r, id).value].submitted
      && SlotsOf(r, id) == SlotsOf(store, id) + Elems(occupied)
  {
    var r := UpdateAvailability(store, id, occupied);
    match FindRecord(store, id)
    case None =>
      assert r[|store|].teacherId == id;
      SameIdsFind(store, r, id, |store|);
    case Some(k) =>
      SameIdsFind(store, r, id, |store|);
      assert Elems(store[k].slots + occupied) == Elems(store[k].slots) + Elems(occupied);
  }

  lemma UpdateOtherRecords(store: seq<AvailRecord>, id: Option<string>, occupied: seq<int>, other: Option<string>)
    requires other != id
    ensures SlotsOf(UpdateAvailability(store, id, occupied), other) == SlotsOf(store, other)
  {
    var r := UpdateAvailability(store, id, occupied);
    SameIdsFind(store, r, other, |store|);
    if FindRecord(store, other).Some? && FindRecord(store, id).Some? {
      assert FindRecord(store, other).value != FindRecord(store, id).value;
    }
  }

  /** Two collections whose first n records carry the same teacher ids agree on every lookup among them. */
  lemma SameIdsFind(a: seq<AvailRecord>, b: seq<AvailRecord>, id: Option<string>, n: nat)
    requires n <= |a| && n <= |b|
    requires forall i :: 0 <= i < n ==> a[i].teacherId == b[i].teacherId
    requires FindRecord(a, id).Some? || n == |a|
    requires FindRecord(a, id).Some? ==> FindRecord(a, id).value < n
    ensures FindRecord(a, id).Some? ==> FindRecord(b, id) == FindRecord(a, id)
    ensures FindRecord(a, id).None? && (n == |b| || b[n].teacherId == id) ==>
      FindRecord(b, id) == if n == |b| then None else Some(n)
  {
    var kb := FindRecord(b, id);
    if kb.Some? && kb.value < n {
      assert a[kb.value].teacherId == id;
    }
  }

  /** The update never removes a slot: every teacher's recorded slots only grow. */
  lemma UpdateAvailabilityMonotone(store: seq<AvailRecord>, id: Option<string>, occupied: seq<int>, who: Option<string>)
    ensures SlotsOf(store, who) <= SlotsOf(UpdateAvailability(store, id, occupied), who)
  {
    UpdateAvailabilityUnion(store, id, occupied, who);
  }

  /**
   * Repeating an identical update changes no teacher's recorded slots, and
   * from the second call on it changes nothing at all.
   */
  lemma UpdateAvailabilityIdempotent(store: seq<AvailRecord>, id: Option<string>, occupied: seq<int>, who: Option<string>)
    ensures var once := UpdateAvailability(store, id, occupied);
      SlotsOf(UpdateAvailability(once, id, occupied), who) == SlotsOf(once, who)
    ensures var twice := UpdateAvailability(UpdateAvailability(store, id, occupied), id, occupied);
      UpdateAvailability(twice, id, occupied) == twice
  {
    var once := UpdateAvailability(store, id, occupied);
    var twice := UpdateAvailability(once, id, occupied);
    UpdateAvailabilityUnion(store, id, occupied, who);
    UpdateAvailabilityUnion(once, id, occupied, who);
    UpdateAvailabilityUnion(once, id, occupied, id);
    var k := FindRecord(once, id).value;
    assert FindRecord(twice, id) == Some(k) by {
      SameIdsFind(once, twice, id, |once|);
    }
    var slots := Dedup(once[k].slots + occupied);
    assert twice[k] == AvailRecord(id, slots, true);
    assert Elems(occupied) <= Elems(slots) by {
      assert Elems(slots) == Elems(once[k].slots + occupied);
      assert forall x :: x in occupied ==> x in once[k].slots + occupied;
    }
    DedupAbsorbs(slots, occupied);
    assert UpdateAvailability(twice, id, occupied) == twice[k := AvailRecord(id, Dedup(slots + occupied), true)];
  }

  // ---------------------------------------------------------------------------
  // get_teacher_availability_status

  /** One row of the status report. */
  datatype StatusRow = StatusRow(teacherId: string, name: string, email: string, slots: seq<int>, submitted: bool, totalUnavailable: nat)

  /** `{t["id"]: t for t in teachers}.get(id)`: the last teacher with that id. */
  function LastWithId(ts: seq<StoredTeacher>, id: Option<string>): (r: Option<StoredTeacher>)
    ensures r.Some? ==>
      exists k :: 0 <= k < |ts| && ts[k] == r.value && Some(ts[k].id) == id &&
        forall j :: k < j < |ts| ==> Some(ts[j].id) != id
    ensures r.None? <==> forall k :: 0 <= k < |ts| ==> Some(ts[k].id) != id
    decreases |ts|
  {
    if |ts| == 0 then None
    else if Some(ts[|ts| - 1].id) == id then Some(ts[|ts| - 1])
    else
      var r := LastWithId(ts[..|ts| - 1], id);
      assert forall k :: 0 <= k < |ts| - 1 ==> ts[..|ts| - 1][k] == ts[k];
      r
  }

  function StatusRows(records: seq<AvailRecord>, ts: seq<StoredTeacher>): (rows: seq<StatusRow>)
    decreases |records|
  {
    if |records| == 0 then []
    else
      var rec := records[0];
      var rest := StatusRows(records[1..], ts);
      match LastWithId(ts, rec.teacherId)
      case None => rest
      case Some(t) => [StatusRow(t.id, t.name, t.email, rec.slots, rec.submitted, |rec.slots|)] + rest
  }

  /** Records whose teacher id the teachers collection knows. */
  function Known(records: seq<AvailRecord>, ts: seq<StoredTeacher>): (r: seq<AvailRecord>)
    decreases |records|
  {
    if |records| == 0 then []
    else if LastWithId(ts, records[0].teacherId).Some? then [records[0]] + Known(records[1..], ts)
    else Known(records[1..], ts)
  }

  datatype Status = Status(rows: seq<StatusRow>, totalTeachers: nat)

  function AvailabilityStatus(records: seq<AvailRecord>, ts: seq<StoredTeacher>): Status {
    var rows := StatusRows(records, ts);
    Status(rows, |rows|)
  }

  /**
   * The report has one row per record with a known teacher id, in
   * collection order: that teacher's name and email, the record's slots,
   * `total_unavailable` their count, and `total_teachers` the row count.
   */
  lemma {:induction false} StatusReportsKnown(records: seq<AvailRecord>, ts: seq<StoredTeacher>)
    ensures var st := AvailabilityStatus(records, ts); var known := Known(records, ts);
      && |st.rows| == |known| == st.totalTeachers
      && |known| <= |records|
      && forall i :: 0 <= i < |known| ==>
           var t := LastWithId(ts, known[i].teacherId);
           && t.Some?
           && st.rows[i] == StatusRow(t.value.id, t.value.name, t.value.email, known[i].slots, known[i].submitted, |known[i].slots|)
    decreases |records|
  {
    if |records| > 0 {
      StatusReportsKnown(records[1..], ts);
    }
  }

  /** A record with an unknown teacher id contributes no row. */
  lemma {:induction false} StatusDropsUnknown(records: seq<AvailRecord>, ts: seq<StoredTeacher>)
    ensures (forall i :: 0 <= i < |records| ==> forall k :: 0 <= k < |ts| ==> Some(ts[k].id) != records[i].teacherId) ==>
      AvailabilityStatus(records, ts).rows == []
    decreases |records|
  {
    if |records| > 0 {
      StatusDropsUnknown(records[1..], ts);
      if forall i :: 0 <= i < |records| ==> forall k :: 0 <= k < |ts| ==> Some(ts[k].id) != records[i].teacherId {
        assert forall i :: 0 <= i < |records[1..]| ==> records[1..][i] == records[i + 1];
        assert LastWithId(ts, records[0].teacherId).None?;
      }
    }
  }

  // ---------------------------------------------------------------------------
  // update_availability_after_timetable

  datatype UpdateResult = Failed | Updated(store: seq<AvailRecord>, teachers: seq<Option<string>>)

  /** The entries of one timetable, processed in dict order. */
  function ProcessEntries(classId: Option<string>, entries: seq<(string, seq<int>)>, docs: seq<InputDoc>, m: Mapping,
                          teachers: seq<StoredTeacher>, store: seq<AvailRecord>, names: seq<Option<string>>): (r: (seq<AvailRecord>, seq<Option<string>>))
    decreases |entries|
  {
    if |entries| == 0 then (store, names)
    else
      var (subject, positions) := entries[0];
      match FindTeacherInInput(classId, subject, docs, m, teachers)
      case None => ProcessEntries(classId, entries[1..], docs, m, teachers, store, names)
      case Some(info) =>
        ProcessEntries(classId, entries[1..], docs, m, teachers, UpdateAvailability(store, info.id, positions), names + [info.name])
  }

  function ProcessTimetables(tts: seq<Timetable>, docs: seq<InputDoc>, m: Mapping,
                             teachers: seq<StoredTeacher>, store: seq<AvailRecord>, names: seq<Option<string>>): (r: (seq<AvailRecord>, seq<Option<string>>))
    decreases |tts|
  {
    if |tts| == 0 then (store, names)
    else
      var (store', names') := ProcessEntries(tts[0].classId, tts[0].ttable, docs, m, teachers, store, names);
      ProcessTimetables(tts[1..], docs, m, teachers, store', names')
  }

  /**
   * `update_availability_after_timetable`: fails without timetables or
   * input documents; otherwise marks every timetable slot of every subject
   * as unavailable for the teacher found for it, and reports the
   * deduplicated names of the teachers updated.
   */
  function UpdateAfterTimetable(tts: seq<Timetable>, docs: seq<InputDoc>, teachers: seq<StoredTeacher>, store: seq<AvailRecord>): (r: UpdateResult)
    ensures (|tts| == 0 || |docs| == 0) <==> r.Failed?
    ensures r.Updated? ==> NoDups(r.teachers)
  {
    if |tts| == 0 || |docs| == 0 then Failed
    else
      var m := TeacherSubjectMapping(docs);
      var (store', names) := ProcessTimetables(tts, docs, m, teachers, store, []);
      Updated(store', Dedup(names))
  }

  /** The lookup finds a teacher with this id for the class and subject. */
  predicate FindsTeacher(classId: Option<string>, subject: string, docs: seq<InputDoc>, m: Mapping, teachers: seq<StoredTeacher>, id: Option<string>) {
    var found := FindTeacherInInput(classId, subject, docs, m, teachers);
    found.Some? && found.value.id == id
  }

  /** A slot of a subject of a timetable whose teacher the lookup finds. */
  ghost predicate Occupies(tts: seq<Timetable>, docs: seq<InputDoc>, m: Mapping, teachers: seq<StoredTeacher>, id: Option<string>, slot: int) {
    exists t, e :: 0 <= t < |tts| && 0 <= e < |tts[t].ttable| &&
      slot in tts[t].ttable[e].1 &&
      FindsTeacher(tts[t].classId, tts[t].ttable[e].0, docs, m, teachers, id)
  }

  lemma {:induction false} ProcessEntriesMarks(classId: Option<string>, entries: seq<(string, seq<int>)>, docs: seq<InputDoc>, m: Mapping,
                                               teachers: seq<StoredTeacher>, store: seq<AvailRecord>, names: seq<Option<string>>, who: Option<string>)
    ensures var r := ProcessEntries(classId, entries, docs, m, teachers, store, names);
      && SlotsOf(store, who) <= SlotsOf(r.0, who)
      && (forall e, slot ::
            (0 <= e < |entries| && slot in entries[e].1 && FindsTeacher(classId, entries[e].0, docs, m, teachers, who)) ==>
              slot in SlotsOf(r.0, who))
    decreases |entries|
  {
    if |entries| > 0 {
      var (subject, positions) := entries[0];
      var found := FindTeacherInInput(classId, subject, docs, m, teachers);
      var store1 := if found.Some? then UpdateAvailability(store, found.value.id, positions) else store;
      var names1 := if found.Some? then names + [found.value.name] else names;
      assert ProcessEntries(classId, entries, docs, m, teachers, store, names) ==
        ProcessEntries(classId, entries[1..], docs, m, teachers, store1, names1);
      if found.Some? {
        UpdateAvailabilityUnion(store, found.value.id, positions, who);
      }
      ProcessEntriesMarks(classId, entries[1..], docs, m, teachers, store1, names1, who);
      forall e, slot | 0 <= e < |entries| && slot in entries[e].1 && FindsTeacher(classId, entries[e].0, docs, m, teachers, who)
        ensures slot in SlotsOf(ProcessEntries(classId, entries, docs, m, teachers, store, names).0, who)
      {
        if e > 0 {
          assert entries[1..][e - 1] == entries[e];
        }
      }
    }
  }

  lemma {:induction false} ProcessTimetablesMarks(tts: seq<Timetable>, docs: seq<InputDoc>, m: Mapping,
                                                  teachers: seq<StoredTeacher>, store: seq<AvailRecord>, names: seq<Option<string>>, who: Option<string>)
    ensures var r := ProcessTimetables(tts, docs, m, teachers, store, names);
      && SlotsOf(store, who) <= SlotsOf(r.0, who)
      && (forall slot :: Occupies(tts, docs, m, teachers, who, slot) ==> slot in SlotsOf(r.0, who))
    decreases |tts|
  {
    if |tts| > 0 {
      var r1 := ProcessEntries(tts[0].classId, tts[0].ttable, docs, m, teachers, store, names);
      ProcessEntriesMarks(tts[0].classId, tts[0].ttable, docs, m, teachers, store, names, who);
      ProcessTimetablesMarks(tts[1..], docs, m, teachers, r1.0, r1.1, who);
      var r := ProcessTimetables(tts, docs, m, teachers, store, names);
      assert r == ProcessTimetables(tts[1..], docs, m, teachers, r1.0, r1.1);
      forall slot | Occupies(tts, docs, m, teachers, who, slot)
        ensures slot in SlotsOf(r.0, who)
      {
        var t, e :| 0 <= t < |tts| && 0 <= e < |tts[t].ttable| &&
          slot in tts[t].ttable[e].1 &&
          FindsTeacher(tts[t].classId, tts[t].ttable[e].0, docs, m, teachers, who);
        if t > 0 {
          assert tts[1..][t - 1] == tts[t];
          assert Occupies(tts[1..], docs, m, teachers, who, slot);
        }
      }
    }
  }

  /**
   * After the update, every slot a timetable gives a subject is recorded
   * as unavailable for the teacher the lookup finds for it, and no slot
   * recorded before is lost.
   */
  lemma UpdateAfterTimetableMarks(tts: seq<Timetable>, docs: seq<InputDoc>, teachers: seq<StoredTeacher>, store: seq<AvailRecord>, who: Option<string>)
    requires |tts| > 0 && |docs| > 0
    ensures var r := UpdateAfterTimetable(tts, docs, teachers, store);
      && SlotsOf(store, who) <= SlotsOf(r.store, who)
      && forall slot :: Occupies(tts, docs, TeacherSubjectMapping(docs), teachers, who, slot) ==> slot in SlotsOf(r.store, who)
  {
    ProcessTimetablesMarks(tts, docs, TeacherSubjectMapping(docs), teachers, store, [], who);
  }

  /** The lookup finds a teacher for the class and subject, and the found dict's `name` is this one. */
  predicate FindsName(classId: Option<string>, subject: string, docs: seq<InputDoc>, m: Mapping, teachers: seq<StoredTeacher>, name: Option<string>) {
    var found := FindTeacherInInput(classId, subject, docs, m, teachers);
    found.Some? && found.value.name == name
  }

  /** Some entry of some timetable is a subject whose found teacher carries this name. */
  ghost predicate Reports(tts: seq<Timetable>, docs: seq<InputDoc>, m: Mapping, teachers: seq<StoredTeacher>, name: Option<string>) {
    exists t, e :: 0 <= t < |tts| && 0 <= e < |tts[t].ttable| && FindsName(tts[t].classId, tts[t].ttable[e].0, docs, m, teachers, name)
  }

  lemma {:induction false} ProcessEntriesNames(classId: Option<string>, entries: seq<(string, seq<int>)>, docs: seq<InputDoc>, m: Mapping,
                                               teachers: seq<StoredTeacher>, store: seq<AvailRecord>, names: seq<Option<string>>, x: Option<string>)
    ensures x in ProcessEntries(classId, entries, docs, m, teachers, store, names).1 <==>
      x in names || exists e :: 0 <= e < |entries| && FindsName(classId, entries[e].0, docs, m, teachers, x)
    decreases |entries|
  {
    if |entries| > 0 {
      var (subject, positions) := entries[0];
      var found := FindTeacherInInput(classId, subject, docs, m, teachers);
      var store1 := if found.Some? then UpdateAvailability(store, found.value.id, positions) else store;
      var names1 := if found.Some? then names + [found.value.name] else names;
      assert ProcessEntries(classId, entries, docs, m, teachers, store, names) ==
        ProcessEntries(classId, entries[1..], docs, m, teachers, store1, names1);
      ProcessEntriesNames(classId, entries[1..], docs, m, teachers, store1, names1, x);
      if exists e :: 0 <= e < |entries| && FindsName(classId, entries[e].0, docs, m, teachers, x) {
        var e :| 0 <= e < |entries| && FindsName(classId, entries[e].0, docs, m, teachers, x);
        if e > 0 {
          assert entries[1..][e - 1] == entries[e];
        }
      }
      if exists e :: 0 <= e < |entries[1..]| && FindsName(classId, entries[1..][e].0, docs, m, teachers, x) {
        var e :| 0 <= e < |entries[1..]| && FindsName(classId, entries[1..][e].0, docs, m, teachers, x);
        assert entries[1..][e] == entries[e + 1];
      }
    }
  }

  lemma {:induction false} ProcessTimetablesNames(tts: seq<Timetable>, docs: seq<InputDoc>, m: Mapping,
                                                  teachers: seq<StoredTeacher>, store: seq<AvailRecord>, names: seq<Option<string>>, x: Option<string>)
    ensures x in ProcessTimetables(tts, docs, m, teachers, store, names).1 <==> x in names || Reports(tts, docs, m, teachers, x)
    decreases |tts|
  {
    if |tts| > 0 {
      var r1 := ProcessEntries(tts[0].classId, tts[0].ttable, docs, m, teachers, store, names);
      ProcessEntriesNames(tts[0].classId, tts[0].ttable, docs, m, teachers, store, names, x);
      ProcessTimetablesNames(tts[1..], docs, m, teachers, r1.0, r1.1, x);
      assert ProcessTimetables(tts, docs, m, teachers, store, names) == ProcessTimetables(tts[1..], docs, m, teachers, r1.0, r1.1);
      if Reports(tts, docs, m, teachers, x) {
        var t, e :| 0 <= t < |tts| && 0 <= e < |tts[t].ttable| && FindsName(tts[t].classId, tts[t].ttable[e].0, docs, m, teachers, x);
        if t > 0 {
          assert tts[1..][t - 1] == tts[t];
        }
      }
      if Reports(tts[1..], docs, m, teachers, x) {
        var t, e :| 0 <= t < |tts[1..]| && 0 <= e < |tts[1..][t].ttable| && FindsName(tts[1..][t].classId, tts[1..][t].ttable[e].0, docs, m, teachers, x);
        assert tts[1..][t] == tts[t + 1];
      }
    }
  }

  /**
   * The reported `updated_teachers` are exactly the `name` values of the
   * teachers found for the timetables' subjects, each once; a found input
   * entry without a name contributes None.
   */
  lemma UpdateAfterTimetableReports(tts: seq<Timetable>, docs: seq<InputDoc>, teachers: seq<StoredTeacher>, store: seq<AvailRecord>, x: Option<string>)
    requires |tts| > 0 && |docs| > 0
    ensures var r := UpdateAfterTimetable(tts, docs, teachers, store);
      NoDups(r.teachers) && (x in r.teachers <==> Reports(tts, docs, TeacherSubjectMapping(docs), teachers, x))
  {
    var m := TeacherSubjectMapping(docs);
    ProcessTimetablesNames(tts, docs, m, teachers, store, [], x);
    var names := ProcessTimetables(tts, docs, m, teachers, store, []).1;
    assert x in Dedup(names) <==> x in Elems(Dedup(names));
    assert x in names <==> x in Elems(names);
  }
}
