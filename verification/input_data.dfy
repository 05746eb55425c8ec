/**
 * The timetable generator's input file and its loading
 * (backend/app/algorithm/input_data.py): the line-oriented parser, the
 * balancing assignment of teachers to subjects, and the merge of the
 * teachers' unavailable slots.
 *
 * The file has three sections, each opened by a keyword line and closed by
 * `end`:
 *
 *     studentgroups
 *     <group> <subject> <hours> <subject> <hours> ...
 *     end
 *     teachers
 *     <name> <subject>
 *     end
 *     teacherunavailability
 *     <name> <slot> <slot> ...
 *     end
 */
module InputData {
  import opened Common
  import opened PyText

  const HoursPerDay := 7
  const DaysPerWeek := 5
  /** The hour index before which a lab block may not start and run across. */
  const LunchHour := 4
  /** A student group holds at most this many subjects; further pairs on its line are ignored. */
  const MaxSubjects := 10
  const LabSuffix := "_lab"

  /** One subject of a student group: how many hours a week, taught by which teacher index. */
  datatype Demand = Demand(subject: string, hours: int, teacherId: nat)

  /** A student group; `demands` holds its `nosubject` subjects in line order. */
  datatype StudentGroup = StudentGroup(id: nat, name: string, demands: seq<Demand>)

  datatype Teacher = Teacher(id: nat, name: string, subject: string, assignedCount: nat, unavailable: seq<int>)

  datatype Mode = Idle | GroupsMode | TeachersMode | UnavailabilityMode

  /** The parser's state: the current section and what has been read so far. */
  datatype Parsed = Parsed(mode: Mode, groups: seq<StudentGroup>, teachers: seq<Teacher>, unavailability: map<string, seq<int>>)

  datatype Input = Input(groups: seq<StudentGroup>, teachers: seq<Teacher>)

  /** `subject.lower().endswith('_lab')`. */
  predicate IsLab(subject: string) {
    EndsWith(Lower(subject), LabSuffix)
  }

  /** The hours of a subject pair: `int(hrs)`, 0 when that raises, and a one-hour lab becomes two. */
  function HoursOf(subject: string, hrs: string): (h: int)
    ensures IsLab(subject) ==> h != 1
    ensures PyInt(hrs).None? ==> h == 0
    ensures PyInt(hrs).Some? && !(IsLab(subject) && PyInt(hrs).value == 1) ==> h == PyInt(hrs).value
  {
    var n := match PyInt(hrs) case Some(v) => v case None => 0;
    if IsLab(subject) && n == 1 then 2 else n
  }

  /** `zip(data[::2], data[1::2])`: consecutive (subject, hours) pairs; an odd last token is dropped. */
  function Pairs(data: seq<string>): (r: seq<(string, string)>)
    ensures |r| == |data| / 2
    decreases |data|
  {
    if |data| < 2 then [] else [(data[0], data[1])] + Pairs(data[2..])
  }

  /** Pair i is tokens 2i and 2i + 1. */
  lemma {:induction false} PairsAt(data: seq<string>)
    ensures forall i :: 0 <= i < |Pairs(data)| ==> Pairs(data)[i] == (data[2 * i], data[2 * i + 1])
    decreases |data|
  {
    if |data| >= 2 {
      PairsAt(data[2..]);
      var r := Pairs(data);
      forall i | 0 <= i < |r|
        ensures r[i] == (data[2 * i], data[2 * i + 1])
      {
        if i > 0 {
          assert r[i] == Pairs(data[2..])[i - 1];
        }
      }
    }
  }

  /** The demands read from the pairs; the teacher index starts at 0. */
  function DemandsOf(pairs: seq<(string, string)>): (r: seq<Demand>)
    ensures |r| == |pairs|
  {
    if |pairs| == 0 then [] else [Demand(pairs[0].0, HoursOf(pairs[0].0, pairs[0].1), 0)] + DemandsOf(pairs[1..])
  }

  /** Demand i is pair i's subject with its hours, and no teacher yet. */
  lemma {:induction false} DemandsOfAt(pairs: seq<(string, string)>)
    ensures forall i :: 0 <= i < |pairs| ==>
      DemandsOf(pairs)[i] == Demand(pairs[i].0, HoursOf(pairs[i].0, pairs[i].1), 0)
    decreases |pairs|
  {
    if |pairs| > 0 {
      DemandsOfAt(pairs[1..]);
      var r := DemandsOf(pairs);
      forall i | 0 <= i < |pairs|
        ensures r[i] == Demand(pairs[i].0, HoursOf(pairs[i].0, pairs[i].1), 0)
      {
        if i > 0 {
          assert r[i] == DemandsOf(pairs[1..])[i - 1];
        }
      }
    }
  }

  /** A student-group line: the group's name and at most ten of its subject pairs. */
  function GroupOf(id: nat, parts: seq<string>): (g: StudentGroup)
    requires |parts| > 0
    ensures g.id == id && g.name == parts[0]
    ensures |g.demands| == if (|parts| - 1) / 2 < MaxSubjects then (|parts| - 1) / 2 else MaxSubjects
  {
    var pairs := Pairs(parts[1..]);
    var kept := if |pairs| < MaxSubjects then pairs else pairs[..MaxSubjects];
    StudentGroup(id, parts[0], DemandsOf(kept))
  }

  /** `[int(p) for p in parts]`; `None` when any of them raises. */
  function ParseSlots(parts: seq<string>): (r: Option<seq<int>>)
    ensures r.Some? <==> forall i :: 0 <= i < |parts| ==> PyInt(parts[i]).Some?
    ensures r.Some? ==> |r.value| == |parts| && forall i :: 0 <= i < |parts| ==> r.value[i] == PyInt(parts[i]).value
  {
    if |parts| == 0 then Some([])
    else match (PyInt(parts[0]), ParseSlots(parts[1..]))
      case (Some(v), Some(vs)) => Some([v] + vs)
      case _ => None
  }

  /** Hours written in any decimal digits read as `int()` reads them, and a one-hour lab still becomes two. */
  lemma HoursUnicodeDigits()
    ensures HoursOf("Math", "\U{0663}") == 3
    ensures HoursOf("Physics_lab", "\U{FF11}") == 2
  {
    PyIntUnicodeDigits();
    assert PyInt("\U{FF11}") == Some(1);
    assert IsLab("Physics_lab") by {
      assert Lower("Physics_lab")[7..] == "_lab";
    }
  }

  /** An hours token of more than 4300 digits makes `int()` raise, so the subject gets 0 hours; such a slot token makes the slot list raise. */
  lemma HoursDigitLimit()
    ensures HoursOf("Math", "1" + Zeros(MaxStrDigits)) == 0
    ensures ParseSlots(["1" + Zeros(MaxStrDigits)]) == None
  {
    PyIntDigitLimit();
    var ps := ["1" + Zeros(MaxStrDigits)];
    assert PyInt(ps[0]).None?;
  }

  /** Unavailability slots written in any decimal digits read as `int()` reads them. */
  lemma SlotsUnicodeDigits()
    ensures ParseSlots(["\U{0663}"]) == Some([3])
  {
    PyIntUnicodeDigits();
    var p := "\U{0663}";
    var ps := [p];
    assert ps[0] == p && ps[1..] == [];
    assert PyInt(ps[0]) == Some(3);
    assert ParseSlots(ps[1..]) == Some([]);
    assert ParseSlots(ps) == Some([3] + []);
    assert [3] + [] == [3];
  }

  /** The section a keyword line opens (or closes), if it is one. */
  function KeywordMode(line: string): Option<Mode> {
    var l := Lower(line);
    if l == "studentgroups" then Some(GroupsMode)
    else if l == "teachers" then Some(TeachersMode)
    else if l == "teacherunavailability" then Some(UnavailabilityMode)
    else if l == "end" then Some(Idle)
    else None
  }

  /** One line of the file; `None` when `int()` raises on an unavailability slot. */
  function ParseLine(p: Parsed, raw: string): Option<Parsed> {
    ParseStripped(p, Strip(raw))
  }

  /** One line after `strip()`. */
  function ParseStripped(p: Parsed, line: string): Option<Parsed> {
    if |line| == 0 then Some(p)
    else match KeywordMode(line)
      case Some(m) => Some(p.(mode := m))
      case None =>
        var parts := Split(line);
        match p.mode
        case TeachersMode =>
          if |parts| < 2 then Some(p)
          else Some(p.(teachers := p.teachers + [Teacher(|p.teachers|, parts[0], parts[1], 0, [])]))
        case GroupsMode =>
          if |parts| == 0 then Some(p)
          else Some(p.(groups := p.groups + [GroupOf(|p.groups|, parts)]))
        case UnavailabilityMode =>
          if |parts| < 2 then Some(p)
          else
            (match ParseSlots(parts[1..])
             case None => None
             case Some(slots) => Some(p.(unavailability := p.unavailability[Lower(parts[0]) := slots])))
        case Idle => Some(p)
  }

  /** What the parser guarantees of a student group it read as the i-th. */
  ghost predicate GroupRead(g: StudentGroup, i: nat) {
    && g.id == i
    && |g.demands| <= MaxSubjects
    && forall j :: 0 <= j < |g.demands| ==> g.demands[j].teacherId == 0 && !(IsLab(g.demands[j].subject) && g.demands[j].hours == 1)
  }

  /** What the parser guarantees of a teacher it read as the i-th. */
  ghost predicate TeacherRead(t: Teacher, i: nat) {
    t.id == i && t.assignedCount == 0 && t.unavailable == []
  }

  ghost predicate WellFormed(p: Parsed) {
    && (forall i :: 0 <= i < |p.groups| ==> GroupRead(p.groups[i], i))
    && (forall i :: 0 <= i < |p.teachers| ==> TeacherRead(p.teachers[i], i))
  }

  lemma GroupOfRead(id: nat, parts: seq<string>)
    requires |parts| > 0
    ensures GroupRead(GroupOf(id, parts), id)
  {
    var g := GroupOf(id, parts);
    var pairs := Pairs(parts[1..]);
    var kept := if |pairs| < MaxSubjects then pairs else pairs[..MaxSubjects];
    assert g.demands == DemandsOf(kept);
    DemandsOfAt(kept);
    forall j | 0 <= j < |g.demands|
      ensures g.demands[j].teacherId == 0 && !(IsLab(g.demands[j].subject) && g.demands[j].hours == 1)
    {
      assert g.demands[j] == Demand(kept[j].0, HoursOf(kept[j].0, kept[j].1), 0);
    }
  }

  lemma ParseLineWellFormed(p: Parsed, raw: string)
    requires WellFormed(p)
    ensures ParseLine(p, raw).Some? ==> WellFormed(ParseLine(p, raw).value)
    ensures ParseLine(p, raw).Some? ==>
      p.groups <= ParseLine(p, raw).value.groups && p.teachers <= ParseLine(p, raw).value.teachers
  {
    ParseStrippedWellFormed(p, Strip(raw));
  }

  lemma ParseStrippedWellFormed(p: Parsed, line: string)
    requires WellFormed(p)
    ensures ParseStripped(p, line).Some? ==> WellFormed(ParseStripped(p, line).value)
    ensures ParseStripped(p, line).Some? ==>
      p.groups <= ParseStripped(p, line).value.groups && p.teachers <= ParseStripped(p, line).value.teachers
  {
    if |line| > 0 && KeywordMode(line).None? {
      var parts := Split(line);
      if p.mode == GroupsMode && |parts| > 0 {
        GroupOfRead(|p.groups|, parts);
        var p' := p.(groups := p.groups + [GroupOf(|p.groups|, parts)]);
        assert ParseStripped(p, line) == Some(p');
        assert forall i :: 0 <= i < |p'.groups| ==> GroupRead(p'.groups[i], i);
      } else if p.mode == TeachersMode && |parts| >= 2 {
        var p' := p.(teachers := p.teachers + [Teacher(|p.teachers|, parts[0], parts[1], 0, [])]);
        assert ParseStripped(p, line) == Some(p');
        assert forall i :: 0 <= i < |p'.teachers| ==> TeacherRead(p'.teachers[i], i);
      }
    }
  }

  function ParseFrom(p: Parsed, lines: seq<string>): (r: Option<Parsed>)
    requires WellFormed(p)
    ensures r.Some? ==> WellFormed(r.value)
    ensures r.Some? ==> p.groups <= r.value.groups && p.teachers <= r.value.teachers
    decreases |lines|
  {
    if |lines| == 0 then Some(p)
    else
      ParseLineWellFormed(p, lines[0]);
      match ParseLine(p, lines[0])
      case None => None
      case Some(p') => ParseFrom(p', lines[1..])
  }

  /** The lines of the file, parsed from an empty state; `None` when the parse raises. */
  function ParseLines(lines: seq<string>): (r: Option<Parsed>)
    ensures r.Some? ==> WellFormed(r.value)
  {
    ParseFrom(Parsed(Idle, [], [], map[]), lines)
  }

  /** A keyword line switches the section whatever the current one is, in any letter case. */
  lemma KeywordLineSwitchesMode(p: Parsed, raw: string, m: Mode)
    requires KeywordMode(Strip(raw)) == Some(m) && |Strip(raw)| > 0
    ensures ParseLine(p, raw) == Some(p.(mode := m))
  {
  }

  /** The section after one line: a keyword switches it, every other line keeps it. */
  function StepMode(m: Mode, raw: string): Mode {
    var line := Strip(raw);
    if |line| > 0 && KeywordMode(line).Some? then KeywordMode(line).value else m
  }

  /** The section the parser is in after reading `lines` from section `m`. */
  function ModeAfter(m: Mode, lines: seq<string>): Mode
    decreases |lines|
  {
    if |lines| == 0 then m else ModeAfter(StepMode(m, lines[0]), lines[1..])
  }

  /** A line read in section `m` on which `int()` raises: an unavailability line of at least two tokens with a slot token `int()` rejects, for its form or for having more than 4300 digits. */
  predicate BadSlotLine(m: Mode, raw: string) {
    var line := Strip(raw);
    var parts := Split(line);
    && m == UnavailabilityMode
    && |line| > 0
    && KeywordMode(line).None?
    && |parts| >= 2
    && exists k :: 1 <= k < |parts| && PyInt(parts[k]).None?
  }

  /** `int()` raises on the slot tokens exactly when one of the tokens after the name is not an integer. */
  lemma SlotTokensFail(parts: seq<string>)
    requires |parts| > 0
    ensures ParseSlots(parts[1..]).None? <==> exists k :: 1 <= k < |parts| && PyInt(parts[k]).None?
  {
    var tail := parts[1..];
    if exists k :: 1 <= k < |parts| && PyInt(parts[k]).None? {
      var k :| 1 <= k < |parts| && PyInt(parts[k]).None?;
      assert PyInt(tail[k - 1]).None?;
    }
    if !(forall k :: 0 <= k < |tail| ==> PyInt(tail[k]).Some?) {
      var k :| 0 <= k < |tail| && PyInt(tail[k]).None?;
      assert PyInt(parts[k + 1]).None?;
    }
  }

  /** One line raises exactly on a bad slot, and otherwise leaves the parser in the next section. */
  lemma ParseLineFails(p: Parsed, raw: string)
    ensures ParseLine(p, raw).None? <==> BadSlotLine(p.mode, raw)
    ensures ParseLine(p, raw).Some? ==> ParseLine(p, raw).value.mode == StepMode(p.mode, raw)
  {
    var parts := Split(Strip(raw));
    if |parts| > 0 {
      SlotTokensFail(parts);
    }
  }

  /** Reading a prefix of `lines` after their first line starts from the section that line leaves. */
  lemma ModeAfterCons(m: Mode, lines: seq<string>, i: nat)
    requires 0 < i <= |lines|
    ensures ModeAfter(m, lines[..i]) == ModeAfter(StepMode(m, lines[0]), lines[1..][..i - 1])
  {
    assert lines[..i][0] == lines[0];
    assert lines[..i][1..] == lines[1..][..i - 1];
  }

  /** Some line of `lines` is bad. */
  ghost predicate SomeBadSlotLine(m: Mode, lines: seq<string>) {
    exists i :: 0 <= i < |lines| && BadSlotLine(ModeAfter(m, lines[..i]), lines[i])
  }

  /** A bad line after the first is a bad line of the lines after the first. */
  lemma BadSlotLineLater(m: Mode, lines: seq<string>, i: nat)
    requires 0 < i < |lines| && BadSlotLine(ModeAfter(m, lines[..i]), lines[i])
    ensures SomeBadSlotLine(StepMode(m, lines[0]), lines[1..])
  {
    ModeAfterCons(m, lines, i);
    var rest := lines[1..];
    assert rest[i - 1] == lines[i];
    assert BadSlotLine(ModeAfter(StepMode(m, lines[0]), rest[..i - 1]), rest[i - 1]);
  }

  /** A bad line of the lines after the first is a bad line of all of them. */
  lemma BadSlotLineEarlier(m: Mode, lines: seq<string>, j: nat)
    requires 0 <= j < |lines| - 1 && BadSlotLine(ModeAfter(StepMode(m, lines[0]), lines[1..][..j]), lines[1..][j])
    ensures SomeBadSlotLine(m, lines)
  {
    ModeAfterCons(m, lines, j + 1);
    assert lines[1..][j] == lines[j + 1];
    assert BadSlotLine(ModeAfter(m, lines[..j + 1]), lines[j + 1]);
  }

  /** Some line of `lines` is bad exactly when the first one is or some line after it is. */
  lemma SomeBadSlotLineCons(m: Mode, lines: seq<string>)
    requires |lines| > 0
    ensures SomeBadSlotLine(m, lines) <==>
      BadSlotLine(m, lines[0]) || SomeBadSlotLine(StepMode(m, lines[0]), lines[1..])
  {
    assert ModeAfter(m, lines[..0]) == m by { assert lines[..0] == []; }
    if SomeBadSlotLine(m, lines) {
      var i :| 0 <= i < |lines| && BadSlotLine(ModeAfter(m, lines[..i]), lines[i]);
      if i > 0 {
        BadSlotLineLater(m, lines, i);
      }
    }
    if SomeBadSlotLine(StepMode(m, lines[0]), lines[1..]) {
      var j :| 0 <= j < |lines| - 1 && BadSlotLine(ModeAfter(StepMode(m, lines[0]), lines[1..][..j]), lines[1..][j]);
      BadSlotLineEarlier(m, lines, j);
    }
  }

  /** The parse from state `p` raises exactly when some line is a bad slot line in the section it is read in. */
  lemma {:induction false} ParseFromFails(p: Parsed, lines: seq<string>)
    requires WellFormed(p)
    ensures ParseFrom(p, lines).None? <==> SomeBadSlotLine(p.mode, lines)
    decreases |lines|
  {
    if |lines| > 0 {
      ParseLineFails(p, lines[0]);
      SomeBadSlotLineCons(p.mode, lines);
      ParseLineWellFormed(p, lines[0]);
      match ParseLine(p, lines[0])
      case None =>
      case Some(q) =>
        ParseFromFails(q, lines[1..]);
    }
  }

  // ---------------------------------------------------------------------------
  // _assign_teacher

  /** The subject key two teachers or a teacher and a demand are compared by. */
  function Key(subject: string): string {
    Lower(subject)
  }

  /** The search loop over teachers k, with the best (first minimal) match so far. */
  function PickFrom(ts: seq<Teacher>, key: string, k: nat, best: int, bestAssigned: int): (r: int)
    requires k <= |ts|
    requires best == -1 <==> forall i :: 0 <= i < k ==> Key(ts[i].subject) != key
    requires best == -1 ==> bestAssigned == -1
    requires best != -1 ==>
      && 0 <= best < k && Key(ts[best].subject) == key && bestAssigned == ts[best].assignedCount
      && (forall i :: 0 <= i < k && Key(ts[i].subject) == key ==> ts[best].assignedCount <= ts[i].assignedCount)
      && (forall i :: 0 <= i < best && Key(ts[i].subject) == key ==> ts[i].assignedCount > ts[best].assignedCount)
    ensures r == -1 <==> forall i :: 0 <= i < |ts| ==> Key(ts[i].subject) != key
    ensures r != -1 ==>
      && 0 <= r < |ts| && Key(ts[r].subject) == key
      && (forall i :: 0 <= i < |ts| && Key(ts[i].subject) == key ==> ts[r].assignedCount <= ts[i].assignedCount)
      && (forall i :: 0 <= i < r && Key(ts[i].subject) == key ==> ts[i].assignedCount > ts[r].assignedCount)
    decreases |ts| - k
  {
    if k == |ts| then best
    else if Key(ts[k].subject) == key && (bestAssigned == -1 || ts[k].assignedCount < bestAssigned) then
      PickFrom(ts, key, k + 1, k, ts[k].assignedCount)
    else
      PickFrom(ts, key, k + 1, best, bestAssigned)
  }

  /**
   * The teacher a subject goes to: the first, in list order, of the teachers
   * of that subject with the fewest assignments so far; -1 when none teaches it.
   */
  function PickTeacher(ts: seq<Teacher>, subject: string): (r: int)
    ensures r == -1 <==> forall i :: 0 <= i < |ts| ==> Key(ts[i].subject) != Key(subject)
    ensures r != -1 ==>
      && 0 <= r < |ts| && Key(ts[r].subject) == Key(subject)
      && (forall i :: 0 <= i < |ts| && Key(ts[i].subject) == Key(subject) ==> ts[r].assignedCount <= ts[i].assignedCount)
      && (forall i :: 0 <= i < r && Key(ts[i].subject) == Key(subject) ==> ts[i].assignedCount > ts[r].assignedCount)
  {
    PickFrom(ts, Key(subject), 0, -1, -1)
  }

  /** Teachers of the same subject carry assignment counts that differ by at most one. */
  ghost predicate Balanced(ts: seq<Teacher>) {
    forall i, j :: 0 <= i < |ts| && 0 <= j < |ts| && Key(ts[i].subject) == Key(ts[j].subject) ==>
      ts[i].assignedCount <= ts[j].assignedCount + 1
  }

  /** Only the assignment counts of teachers change. */
  ghost predicate SameStaff(ts: seq<Teacher>, ts': seq<Teacher>) {
    |ts'| == |ts| &&
    forall i :: 0 <= i < |ts| ==> ts'[i] == ts[i].(assignedCount := ts'[i].assignedCount)
  }

  function SumAssigned(ts: seq<Teacher>): nat {
    if |ts| == 0 then 0 else SumAssigned(ts[..|ts| - 1]) + ts[|ts| - 1].assignedCount
  }

  lemma {:induction false} SumAssignedIncrement(ts: seq<Teacher>, k: nat)
    requires k < |ts|
    ensures SumAssigned(ts[k := ts[k].(assignedCount := ts[k].assignedCount + 1)]) == SumAssigned(ts) + 1
    decreases |ts|
  {
    var ts' := ts[k := ts[k].(assignedCount := ts[k].assignedCount + 1)];
    if k < |ts| - 1 {
      assert ts'[..|ts| - 1] == ts[..|ts| - 1][k := ts[k].(assignedCount := ts[k].assignedCount + 1)];
      SumAssignedIncrement(ts[..|ts| - 1], k);
    } else {
      assert ts'[..|ts| - 1] == ts[..|ts| - 1];
    }
  }

  /** Some teacher of the list teaches the subject (compared case-insensitively). */
  predicate Teaches(ts: seq<Teacher>, subject: string) {
    exists i :: 0 <= i < |ts| && Key(ts[i].subject) == Key(subject)
  }

  /** The demand records a teacher of its own subject. */
  ghost predicate Staffed(ts: seq<Teacher>, d: Demand) {
    d.teacherId < |ts| && Key(ts[d.teacherId].subject) == Key(d.subject)
  }

  /** Teachers listed in the same order with the same subjects. */
  ghost predicate SameSubjects(ts: seq<Teacher>, ts': seq<Teacher>) {
    |ts'| == |ts| && forall i :: 0 <= i < |ts| ==> ts'[i].subject == ts[i].subject
  }

  lemma SameStaffTeaches(ts: seq<Teacher>, ts': seq<Teacher>, subject: string)
    requires SameSubjects(ts, ts')
    ensures Teaches(ts, subject) == Teaches(ts', subject)
  {
    if Teaches(ts, subject) {
      var i :| 0 <= i < |ts| && Key(ts[i].subject) == Key(subject);
      assert ts'[i].subject == ts[i].subject;
    }
    if Teaches(ts', subject) {
      var i :| 0 <= i < |ts'| && Key(ts'[i].subject) == Key(subject);
      assert ts'[i].subject == ts[i].subject;
    }
  }

  /** The number of demands some teacher of the list teaches. */
  function CountTaught(ts: seq<Teacher>, ds: seq<Demand>): nat {
    if |ds| == 0 then 0 else (if Teaches(ts, ds[0].subject) then 1 else 0) + CountTaught(ts, ds[1..])
  }

  /** One subject's assignment: the picked teacher's count goes up and the demand records the teacher. */
  function AssignOne(ts: seq<Teacher>, d: Demand): (r: (seq<Teacher>, Demand))
    ensures SameStaff(ts, r.0)
    ensures r.1.subject == d.subject && r.1.hours == d.hours
    ensures Balanced(ts) ==> Balanced(r.0)
    ensures !Teaches(ts, d.subject) ==> r == (ts, d)
    ensures Teaches(ts, d.subject) ==> Staffed(ts, r.1) && SumAssigned(r.0) == SumAssigned(ts) + 1
  {
    var k := PickTeacher(ts, d.subject);
    if k == -1 then (ts, d)
    else
      var ts' := ts[k := ts[k].(assignedCount := ts[k].assignedCount + 1)];
      SumAssignedIncrement(ts, k);
      assert Balanced(ts) ==> Balanced(ts') by {
        if Balanced(ts) {
          forall i, j | 0 <= i < |ts'| && 0 <= j < |ts'| && Key(ts'[i].subject) == Key(ts'[j].subject)
            ensures ts'[i].assignedCount <= ts'[j].assignedCount + 1
          {
            if i == k && j != k {
              assert ts[k].assignedCount <= ts[j].assignedCount;
            }
          }
        }
      }
      (ts', d.(teacherId := k))
  }

  /** The subjects of one student group, assigned in order. */
  function AssignDemands(ts: seq<Teacher>, ds: seq<Demand>): (r: (seq<Teacher>, seq<Demand>))
    ensures SameStaff(ts, r.0)
    ensures |r.1| == |ds|
    ensures forall j :: 0 <= j < |ds| ==> r.1[j].subject == ds[j].subject && r.1[j].hours == ds[j].hours
    ensures forall j :: 0 <= j < |ds| ==> if Teaches(ts, ds[j].subject) then Staffed(ts, r.1[j]) else r.1[j] == ds[j]
    ensures Balanced(ts) ==> Balanced(r.0)
    ensures SumAssigned(r.0) == SumAssigned(ts) + CountTaught(ts, ds)
    decreases |ds|
  {
    if |ds| == 0 then (ts, [])
    else
      var one := AssignOne(ts, ds[0]);
      var rest := AssignDemands(one.0, ds[1..]);
      AssignDemandsFacts(ts, one.0, ds, rest.1);
      DemandsCons(ts, ds, one.1, rest.1);
      (rest.0, [one.1] + rest.1)
  }

  /** Putting the first demand back in front of the others keeps every subject and hours, and staffs them all. */
  lemma DemandsCons(ts: seq<Teacher>, ds: seq<Demand>, d0: Demand, rest: seq<Demand>)
    requires |ds| > 0 && |rest| == |ds| - 1
    requires d0.subject == ds[0].subject && d0.hours == ds[0].hours
    requires if Teaches(ts, ds[0].subject) then Staffed(ts, d0) else d0 == ds[0]
    requires forall j :: 0 <= j < |rest| ==> rest[j].subject == ds[1..][j].subject && rest[j].hours == ds[1..][j].hours
    requires forall j :: 0 <= j < |rest| ==> if Teaches(ts, ds[j + 1].subject) then Staffed(ts, rest[j]) else rest[j] == ds[j + 1]
    ensures forall j :: 0 <= j < |ds| ==> ([d0] + rest)[j].subject == ds[j].subject && ([d0] + rest)[j].hours == ds[j].hours
    ensures forall j :: 0 <= j < |ds| ==>
      if Teaches(ts, ds[j].subject) then Staffed(ts, ([d0] + rest)[j]) else ([d0] + rest)[j] == ds[j]
  {
    var all := [d0] + rest;
    forall j | 0 <= j < |ds|
      ensures all[j].subject == ds[j].subject && all[j].hours == ds[j].hours
      ensures if Teaches(ts, ds[j].subject) then Staffed(ts, all[j]) else all[j] == ds[j]
    {
      if j > 0 {
        assert all[j] == rest[j - 1] && ds[1..][j - 1] == ds[j];
      }
    }
  }

  lemma AssignDemandsFacts(ts: seq<Teacher>, ts1: seq<Teacher>, ds: seq<Demand>, rest: seq<Demand>)
    requires |ds| > 0 && SameStaff(ts, ts1) && |rest| == |ds| - 1
    requires forall j :: 0 <= j < |rest| ==> if Teaches(ts1, ds[1..][j].subject) then Staffed(ts1, rest[j]) else rest[j] == ds[1..][j]
    ensures forall j :: 0 <= j < |rest| ==> if Teaches(ts, ds[j + 1].subject) then Staffed(ts, rest[j]) else rest[j] == ds[j + 1]
    ensures CountTaught(ts1, ds[1..]) == CountTaught(ts, ds[1..])
  {
    forall j | 0 <= j < |rest|
      ensures if Teaches(ts, ds[j + 1].subject) then Staffed(ts, rest[j]) else rest[j] == ds[j + 1]
    {
      SameStaffTeaches(ts, ts1, ds[j + 1].subject);
    }
    CountTaughtSameStaff(ts, ts1, ds[1..]);
  }

  lemma {:induction false} CountTaughtSameStaff(ts: seq<Teacher>, ts': seq<Teacher>, ds: seq<Demand>)
    requires SameStaff(ts, ts')
    ensures CountTaught(ts', ds) == CountTaught(ts, ds)
    decreases |ds|
  {
    if |ds| > 0 {
      SameStaffTeaches(ts, ts', ds[0].subject);
      CountTaughtSameStaff(ts, ts', ds[1..]);
    }
  }

  /** The number of demands, over all groups, that some teacher of the list teaches. */
  function CountTaughtGroups(ts: seq<Teacher>, gs: seq<StudentGroup>): nat {
    if |gs| == 0 then 0 else CountTaught(ts, gs[0].demands) + CountTaughtGroups(ts, gs[1..])
  }

  /** Every demand of every group records a teacher of its subject, or keeps its teacher index when nobody teaches it. */
  ghost predicate AllStaffed(ts: seq<Teacher>, gs: seq<StudentGroup>, before: seq<StudentGroup>) {
    |gs| == |before| &&
    forall i, j :: 0 <= i < |gs| && 0 <= j < |gs[i].demands| && j < |before[i].demands| ==>
      if Teaches(ts, before[i].demands[j].subject) then Staffed(ts, gs[i].demands[j])
      else gs[i].demands[j] == before[i].demands[j]
  }

  /** `_assign_teacher`: every subject of every group, groups in order. */
  function AssignGroups(ts: seq<Teacher>, gs: seq<StudentGroup>): (r: (seq<Teacher>, seq<StudentGroup>))
    ensures SameStaff(ts, r.0)
    ensures |r.1| == |gs|
    ensures forall i :: 0 <= i < |gs| ==>
      r.1[i].id == gs[i].id && r.1[i].name == gs[i].name && |r.1[i].demands| == |gs[i].demands|
      && forall j :: 0 <= j < |gs[i].demands| ==>
           r.1[i].demands[j].subject == gs[i].demands[j].subject && r.1[i].demands[j].hours == gs[i].demands[j].hours
    ensures AllStaffed(ts, r.1, gs)
    ensures Balanced(ts) ==> Balanced(r.0)
    ensures SumAssigned(r.0) == SumAssigned(ts) + CountTaughtGroups(ts, gs)
    decreases |gs|
  {
    if |gs| == 0 then (ts, [])
    else
      var first := AssignDemands(ts, gs[0].demands);
      var rest := AssignGroups(first.0, gs[1..]);
      AssignGroupsFacts(ts, first.0, gs, rest.1);
      AllStaffedCons(ts, gs, first.1, rest.1);
      (rest.0, [gs[0].(demands := first.1)] + rest.1)
  }

  /** Staffing the first group's demands, and the other groups' already, staffs them all. */
  lemma AllStaffedCons(ts: seq<Teacher>, gs: seq<StudentGroup>, d1: seq<Demand>, rest: seq<StudentGroup>)
    requires |gs| > 0 && |d1| == |gs[0].demands|
    requires forall j :: 0 <= j < |gs[0].demands| ==>
      if Teaches(ts, gs[0].demands[j].subject) then Staffed(ts, d1[j]) else d1[j] == gs[0].demands[j]
    requires AllStaffed(ts, rest, gs[1..])
    ensures AllStaffed(ts, [gs[0].(demands := d1)] + rest, gs)
  {
  }

  lemma AssignGroupsFacts(ts: seq<Teacher>, ts1: seq<Teacher>, gs: seq<StudentGroup>, rest: seq<StudentGroup>)
    requires |gs| > 0 && SameStaff(ts, ts1)
    requires AllStaffed(ts1, rest, gs[1..])
    ensures AllStaffed(ts, rest, gs[1..])
    ensures CountTaughtGroups(ts1, gs[1..]) == CountTaughtGroups(ts, gs[1..])
  {
    forall i, j | 0 <= i < |rest| && 0 <= j < |rest[i].demands| && j < |gs[1..][i].demands|
      ensures if Teaches(ts, gs[1..][i].demands[j].subject) then Staffed(ts, rest[i].demands[j])
              else rest[i].demands[j] == gs[1..][i].demands[j]
    {
      SameStaffTeaches(ts, ts1, gs[1..][i].demands[j].subject);
    }
    CountTaughtGroupsSameStaff(ts, ts1, gs[1..]);
  }

  lemma {:induction false} CountTaughtGroupsSameStaff(ts: seq<Teacher>, ts': seq<Teacher>, gs: seq<StudentGroup>)
    requires SameStaff(ts, ts')
    ensures CountTaughtGroups(ts', gs) == CountTaughtGroups(ts, gs)
    decreases |gs|
  {
    if |gs| > 0 {
      CountTaughtSameStaff(ts, ts', gs[0].demands);
      CountTaughtGroupsSameStaff(ts, ts', gs[1..]);
    }
  }

  /** `_merge_unavailability_data`: each teacher's slots listed under their lower-cased name are appended. */
  function MergeUnavailability(ts: seq<Teacher>, data: map<string, seq<int>>): (r: seq<Teacher>)
    ensures |r| == |ts|
    ensures forall i :: 0 <= i < |ts| ==>
      r[i] == ts[i].(unavailable := ts[i].unavailable + (if Lower(ts[i].name) in data then data[Lower(ts[i].name)] else []))
  {
    seq(|ts|, i requires 0 <= i < |ts| =>
      ts[i].(unavailable := ts[i].unavailable + (if Lower(ts[i].name) in data then data[Lower(ts[i].name)] else [])))
  }

  /** Loading keeps the groups and teachers it parsed, in order and with their indices. */
  ghost predicate ShapeKept(r: Input, p: Parsed) {
    && |r.groups| == |p.groups|
    && |r.teachers| == |p.teachers|
    && (forall i :: 0 <= i < |p.groups| ==>
          r.groups[i].id == i && r.groups[i].name == p.groups[i].name
          && |r.groups[i].demands| == |p.groups[i].demands| <= MaxSubjects)
    && (forall i :: 0 <= i < |p.teachers| ==>
          r.teachers[i].id == i && r.teachers[i].name == p.teachers[i].name
          && r.teachers[i].subject == p.teachers[i].subject)
  }

  /**
   * Every subject records a teacher of that subject; a subject nobody
   * teaches keeps teacher index 0, which names the first teacher of the list.
   */
  ghost predicate StaffingKept(r: Input, p: Parsed) {
    |r.groups| == |p.groups| &&
    forall i, j :: 0 <= i < |p.groups| && 0 <= j < |p.groups[i].demands| && j < |r.groups[i].demands| ==>
      if Teaches(r.teachers, p.groups[i].demands[j].subject) then Staffed(r.teachers, r.groups[i].demands[j])
      else r.groups[i].demands[j].teacherId == 0
  }

  /** What loading guarantees of the input it builds from parsed sections `p`. */
  ghost predicate LoadedFrom(r: Input, p: Parsed) {
    && ShapeKept(r, p)
    && StaffingKept(r, p)
    && Balanced(r.teachers)
    && SumAssigned(r.teachers) == CountTaughtGroups(p.teachers, p.groups)
  }

  /** Assignment then merge, on parsed sections. */
  function Load(p: Parsed): (r: Input)
    requires WellFormed(p)
    ensures LoadedFrom(r, p)
  {
    var staffed := AssignGroups(p.teachers, p.groups);
    var merged := MergeUnavailability(staffed.0, p.unavailability);
    MergeKeepsStaff(staffed.0, merged, p.unavailability);
    LoadShape(p, staffed, merged);
    assert SameSubjects(p.teachers, merged);
    LoadStaffing(p, staffed.1, merged);
    LoadBalance(p, staffed, merged);
    Input(staffed.1, merged)
  }

  lemma LoadShape(p: Parsed, staffed: (seq<Teacher>, seq<StudentGroup>), merged: seq<Teacher>)
    requires WellFormed(p)
    requires staffed == AssignGroups(p.teachers, p.groups)
    requires |merged| == |staffed.0|
    requires forall i :: 0 <= i < |merged| ==>
      merged[i].id == staffed.0[i].id && merged[i].name == staffed.0[i].name && merged[i].subject == staffed.0[i].subject
    ensures ShapeKept(Input(staffed.1, merged), p)
  {
    forall i | 0 <= i < |p.groups| ensures staffed.1[i].id == i && |p.groups[i].demands| <= MaxSubjects {
      assert GroupRead(p.groups[i], i);
    }
    forall i | 0 <= i < |p.teachers| ensures merged[i].id == i {
      assert TeacherRead(p.teachers[i], i);
    }
  }

  lemma LoadStaffing(p: Parsed, gs: seq<StudentGroup>, merged: seq<Teacher>)
    requires WellFormed(p)
    requires AllStaffed(p.teachers, gs, p.groups)
    requires SameSubjects(p.teachers, merged)
    ensures StaffingKept(Input(gs, merged), p)
  {
    forall i, j | 0 <= i < |p.groups| && 0 <= j < |p.groups[i].demands| && j < |gs[i].demands|
      ensures if Teaches(merged, p.groups[i].demands[j].subject) then Staffed(merged, gs[i].demands[j])
              else gs[i].demands[j].teacherId == 0
    {
      SameStaffTeaches(p.teachers, merged, p.groups[i].demands[j].subject);
      assert GroupRead(p.groups[i], i);
    }
  }

  lemma LoadBalance(p: Parsed, staffed: (seq<Teacher>, seq<StudentGroup>), merged: seq<Teacher>)
    requires WellFormed(p)
    requires staffed == AssignGroups(p.teachers, p.groups)
    requires Balanced(staffed.0) ==> Balanced(merged)
    requires SumAssigned(merged) == SumAssigned(staffed.0)
    ensures Balanced(merged)
    ensures SumAssigned(merged) == CountTaughtGroups(p.teachers, p.groups)
  {
    assert Balanced(p.teachers) by {
      assert forall i :: 0 <= i < |p.teachers| ==> TeacherRead(p.teachers[i], i);
    }
    SumAssignedZero(p.teachers);
  }

  /**
   * The constructor of `InputData`: read the lines (an absent file reads as
   * no lines), assign teachers, merge unavailability. `None` when an
   * unavailability slot does not parse as an integer.
   */
  function LoadInput(lines: seq<string>): (r: Option<Input>)
    ensures r.Some? <==> ParseLines(lines).Some?
    ensures r.Some? ==> LoadedFrom(r.value, ParseLines(lines).value)
  {
    match ParseLines(lines)
    case None => None
    case Some(p) => Some(Load(p))
  }

  /** Loading fails exactly when some line, read in the unavailability section, has a slot token `int()` rejects. */
  lemma LoadInputFails(lines: seq<string>)
    ensures LoadInput(lines).None? <==>
      exists i :: 0 <= i < |lines| && BadSlotLine(ModeAfter(Idle, lines[..i]), lines[i])
  {
    ParseFromFails(Parsed(Idle, [], [], map[]), lines);
  }

  lemma {:induction false} SumAssignedZero(ts: seq<Teacher>)
    requires forall i :: 0 <= i < |ts| ==> ts[i].assignedCount == 0
    ensures SumAssigned(ts) == 0
  {
    if |ts| > 0 {
      SumAssignedZero(ts[..|ts| - 1]);
    }
  }

  lemma {:induction false} SumAssignedSame(ts: seq<Teacher>, ts': seq<Teacher>)
    requires |ts| == |ts'| && forall i :: 0 <= i < |ts| ==> ts'[i].assignedCount == ts[i].assignedCount
    ensures SumAssigned(ts') == SumAssigned(ts)
  {
    if |ts| > 0 {
      SumAssignedSame(ts[..|ts| - 1], ts'[..|ts| - 1]);
    }
  }

  /** The merge touches only the unavailable slots. */
  lemma MergeKeepsStaff(ts: seq<Teacher>, merged: seq<Teacher>, data: map<string, seq<int>>)
    requires merged == MergeUnavailability(ts, data)
    ensures |merged| == |ts|
    ensures forall i :: 0 <= i < |ts| ==>
      merged[i].id == ts[i].id && merged[i].name == ts[i].name && merged[i].subject == ts[i].subject
      && merged[i].assignedCount == ts[i].assignedCount
    ensures Balanced(ts) ==> Balanced(merged)
    ensures SumAssigned(merged) == SumAssigned(ts)
  {
    SumAssignedSame(ts, merged);
  }
}
