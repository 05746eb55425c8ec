/**
 * The serialiser that turns the timetable request into the generator's
 * input file (backend/app/algorithm/time_table_input_transform_service.py),
 * and the round trip through the parser of InputData: for requests whose
 * tokens are single words, parsing the emitted lines recovers the groups,
 * the teachers and the non-empty unavailability lists.
 */
module Transform {
  import opened Common
  import opened PyText
  import opened InputData

  /** A student group of the request: its name and its subjects with their weekly hours, in dict order. */
  datatype GroupEntry = GroupEntry(group: string, subjects: seq<(string, int)>)
  datatype TeacherEntry = TeacherEntry(name: string, subject: string)
  datatype UnavailableEntry = UnavailableEntry(name: string, slots: seq<int>)
  datatype Request = Request(groups: seq<GroupEntry>, teachers: seq<TeacherEntry>, unavailability: seq<UnavailableEntry>)

  /** The subject/hours tokens of a group line: each subject followed by `str(hours)`. */
  function SubjectTokens(subjects: seq<(string, int)>): (r: seq<string>)
    ensures |r| == 2 * |subjects|
  {
    if |subjects| == 0 then []
    else [subjects[0].0, ShowInt(subjects[0].1)] + SubjectTokens(subjects[1..])
  }

  lemma {:induction false} SubjectTokensAt(subjects: seq<(string, int)>, i: nat)
    requires i < |subjects|
    ensures SubjectTokens(subjects)[2 * i] == subjects[i].0
    ensures SubjectTokens(subjects)[2 * i + 1] == ShowInt(subjects[i].1)
    decreases i
  {
    if i > 0 {
      SubjectTokensAt(subjects[1..], i - 1);
      var rest := SubjectTokens(subjects[1..]);
      assert SubjectTokens(subjects) == [subjects[0].0, ShowInt(subjects[0].1)] + rest;
    }
  }

  function GroupLine(g: GroupEntry): string {
    Join([g.group] + SubjectTokens(g.subjects))
  }

  function TeacherLine(t: TeacherEntry): string {
    t.name + " " + t.subject
  }

  function SlotTokens(slots: seq<int>): (r: seq<string>)
    ensures |r| == |slots| && forall i :: 0 <= i < |slots| ==> r[i] == ShowInt(slots[i])
  {
    seq(|slots|, i requires 0 <= i < |slots| => ShowInt(slots[i]))
  }

  function UnavailableLine(u: UnavailableEntry): string {
    u.name + " " + Join(SlotTokens(u.slots))
  }

  function GroupLines(gs: seq<GroupEntry>): (r: seq<string>)
    ensures |r| == |gs| && forall i :: 0 <= i < |gs| ==> r[i] == GroupLine(gs[i])
  {
    seq(|gs|, i requires 0 <= i < |gs| => GroupLine(gs[i]))
  }

  function TeacherLines(ts: seq<TeacherEntry>): (r: seq<string>)
    ensures |r| == |ts| && forall i :: 0 <= i < |ts| ==> r[i] == TeacherLine(ts[i])
  {
    seq(|ts|, i requires 0 <= i < |ts| => TeacherLine(ts[i]))
  }

  function UnavailableLines(us: seq<UnavailableEntry>): (r: seq<string>)
    ensures |r| == |us| && forall i :: 0 <= i < |us| ==> r[i] == UnavailableLine(us[i])
  {
    seq(|us|, i requires 0 <= i < |us| => UnavailableLine(us[i]))
  }

  /** A section: its keyword line, its lines, and `end`. */
  function Section(keyword: string, body: seq<string>): seq<string> {
    [keyword] + body + ["end"]
  }

  /** The lines `transform_input` writes: three sections in a fixed order. */
  function TransformLines(req: Request): (lines: seq<string>)
    ensures var g, t, u := |req.groups|, |req.teachers|, |req.unavailability|;
      |lines| == g + t + u + 6 &&
      lines[0] == "studentgroups" && lines[g + 1] == "end" &&
      lines[g + 2] == "teachers" && lines[g + t + 3] == "end" &&
      lines[g + t + 4] == "teacherunavailability" && lines[g + t + u + 5] == "end" &&
      (forall i :: 0 <= i < g ==> lines[1 + i] == GroupLine(req.groups[i])) &&
      (forall i :: 0 <= i < t ==> lines[g + 3 + i] == TeacherLine(req.teachers[i])) &&
      (forall i :: 0 <= i < u ==> lines[g + t + 5 + i] == UnavailableLine(req.unavailability[i]))
  {
    Section("studentgroups", GroupLines(req.groups))
      + Section("teachers", TeacherLines(req.teachers))
      + Section("teacherunavailability", UnavailableLines(req.unavailability))
  }

  // What the round trip needs of the request.

  predicate SubjectsRepresentable(subjects: seq<(string, int)>) {
    && |subjects| <= MaxSubjects
    && forall i :: 0 <= i < |subjects| ==>
         IsWord(subjects[i].0) && !(IsLab(subjects[i].0) && subjects[i].1 == 1) && StrFits(subjects[i].1)
  }

  /** Every slot has at most 4300 digits, so `str` writes it and `int` reads it back. */
  predicate SlotsFit(slots: seq<int>) {
    forall i :: 0 <= i < |slots| ==> StrFits(slots[i])
  }

  /**
   * Every name and subject is one word; a group has at most ten subjects
   * and no one-hour lab; a line that ends up a single word is not a
   * section keyword; every hours and slot value has at most 4300 digits,
   * as any integer of a JSON request body does, because Python's JSON
   * decoder reads integers with `int()`.
   */
  predicate Representable(req: Request) {
    && (forall i :: 0 <= i < |req.groups| ==>
          IsWord(req.groups[i].group) && SubjectsRepresentable(req.groups[i].subjects) &&
          (|req.groups[i].subjects| == 0 ==> KeywordMode(req.groups[i].group).None?))
    && (forall i :: 0 <= i < |req.teachers| ==> IsWord(req.teachers[i].name) && IsWord(req.teachers[i].subject))
    && (forall i :: 0 <= i < |req.unavailability| ==>
          IsWord(req.unavailability[i].name) && SlotsFit(req.unavailability[i].slots) &&
          (|req.unavailability[i].slots| == 0 ==> KeywordMode(req.unavailability[i].name).None?))
  }

  // What the parser should read back.

  function DemandsRead(subjects: seq<(string, int)>): (r: seq<Demand>)
    ensures |r| == |subjects| && forall i :: 0 <= i < |subjects| ==> r[i] == Demand(subjects[i].0, subjects[i].1, 0)
  {
    seq(|subjects|, i requires 0 <= i < |subjects| => Demand(subjects[i].0, subjects[i].1, 0))
  }

  function GroupsRead(first: nat, gs: seq<GroupEntry>): (r: seq<StudentGroup>)
    ensures |r| == |gs|
    ensures forall i :: 0 <= i < |gs| ==> r[i] == StudentGroup(first + i, gs[i].group, DemandsRead(gs[i].subjects))
  {
    seq(|gs|, i requires 0 <= i < |gs| => StudentGroup(first + i, gs[i].group, DemandsRead(gs[i].subjects)))
  }

  function TeachersRead(first: nat, ts: seq<TeacherEntry>): (r: seq<Teacher>)
    ensures |r| == |ts|
    ensures forall i :: 0 <= i < |ts| ==> r[i] == Teacher(first + i, ts[i].name, ts[i].subject, 0, [])
  {
    seq(|ts|, i requires 0 <= i < |ts| => Teacher(first + i, ts[i].name, ts[i].subject, 0, []))
  }

  /** The unavailability map: keyed by lower-cased name, later entries win, entries without slots are skipped. */
  function UnavailabilityRead(m: map<string, seq<int>>, us: seq<UnavailableEntry>): map<string, seq<int>>
    decreases |us|
  {
    if |us| == 0 then m
    else
      var m' := if |us[0].slots| == 0 then m else m[Lower(us[0].name) := us[0].slots];
      UnavailabilityRead(m', us[1..])
  }

  // The round trip.

  lemma {:induction false} ParseFromConcat(p: Parsed, a: seq<string>, b: seq<string>)
    requires InputData.WellFormed(p)
    ensures ParseFrom(p, a + b) ==
      match ParseFrom(p, a) case None => None case Some(q) => ParseFrom(q, b)
    decreases |a|
  {
    if |a| > 0 {
      assert (a + b)[0] == a[0] && (a + b)[1..] == a[1..] + b;
      ParseLineWellFormed(p, a[0]);
      if ParseLine(p, a[0]).Some? {
        ParseFromConcat(ParseLine(p, a[0]).value, a[1..], b);
      }
    } else {
      assert a + b == b;
    }
  }

  /** A line holding a space is never a section keyword. */
  lemma SpacedNotKeyword(line: string)
    requires ' ' in line
    ensures KeywordMode(line).None?
  {
    var i :| 0 <= i < |line| && line[i] == ' ';
    assert Lower(line)[i] == ' ';
  }

  lemma ParseLineStripped(p: Parsed, raw: string)
    requires Strip(raw) == raw
    ensures ParseLine(p, raw) == ParseStripped(p, raw)
  {
  }

  /** A line of words is read as those words; unless it is one keyword, it is not a section keyword. */
  lemma JoinedLine(p: Parsed, tokens: seq<string>)
    requires |tokens| > 0
    requires forall i :: 0 <= i < |tokens| ==> IsWord(tokens[i])
    requires |tokens| == 1 ==> KeywordMode(tokens[0]).None?
    ensures ParseLine(p, Join(tokens)) == ParseStripped(p, Join(tokens)) && |Join(tokens)| > 0
    ensures KeywordMode(Join(tokens)).None?
    ensures Split(Join(tokens)) == tokens
  {
    StripJoin(tokens);
    ParseLineStripped(p, Join(tokens));
    JoinEnds(tokens);
    SplitJoin(tokens);
    if |tokens| >= 2 {
      JoinHasSpace(tokens);
      SpacedNotKeyword(Join(tokens));
    }
  }

  /** A keyword line switches the parser into its section. */
  lemma KeywordLine(p: Parsed, keyword: string, m: Mode)
    requires IsWord(keyword) && KeywordMode(keyword) == Some(m)
    ensures ParseLine(p, keyword) == Some(p.(mode := m))
  {
    WordIsStripped(keyword);
    ParseLineStripped(p, keyword);
  }

  /** A non-keyword line in the student-group section appends the group it spells. */
  lemma GroupWords(p: Parsed, line: string, parts: seq<string>)
    requires |line| > 0 && KeywordMode(line).None? && Split(line) == parts && |parts| > 0
    requires p.mode == GroupsMode
    ensures ParseStripped(p, line) == Some(p.(groups := p.groups + [GroupOf(|p.groups|, parts)]))
  {
  }

  /** A non-keyword line of integer slots in the unavailability section sets the entry of its lower-cased name. */
  lemma UnavailableWords(p: Parsed, line: string, parts: seq<string>, slots: seq<int>)
    requires |line| > 0 && KeywordMode(line).None? && Split(line) == parts && |parts| >= 2
    requires ParseSlots(parts[1..]) == Some(slots)
    requires p.mode == UnavailabilityMode
    ensures ParseStripped(p, line) == Some(p.(unavailability := p.unavailability[Lower(parts[0]) := slots]))
  {
  }

  lemma GroupLineParses(p: Parsed, g: GroupEntry)
    requires p.mode == GroupsMode
    requires IsWord(g.group) && SubjectsRepresentable(g.subjects)
    requires |g.subjects| == 0 ==> KeywordMode(g.group).None?
    ensures ParseLine(p, GroupLine(g)) ==
      Some(p.(groups := p.groups + [StudentGroup(|p.groups|, g.group, DemandsRead(g.subjects))]))
  {
    var tokens := [g.group] + SubjectTokens(g.subjects);
    GroupTokensAreWords(g);
    JoinedLine(p, tokens);
    var line := GroupLine(g);
    var group := GroupOf(|p.groups|, tokens);
    GroupWords(p, line, tokens);
    GroupDemands(g, tokens, group);
  }

  lemma GroupTokensAreWords(g: GroupEntry)
    requires IsWord(g.group) && SubjectsRepresentable(g.subjects)
    ensures forall i :: 0 <= i < |[g.group] + SubjectTokens(g.subjects)| ==> IsWord(([g.group] + SubjectTokens(g.subjects))[i])
  {
    var tokens := [g.group] + SubjectTokens(g.subjects);
    forall i | 0 <= i < |tokens|
      ensures IsWord(tokens[i])
    {
      if i > 0 {
        var k := (i - 1) / 2;
        SubjectTokensAt(g.subjects, k);
        if (i - 1) % 2 == 0 {
          assert tokens[i] == g.subjects[k].0;
        } else {
          assert tokens[i] == ShowInt(g.subjects[k].1);
          ShowIntIsWord(g.subjects[k].1);
        }
      }
    }
  }

  lemma GroupDemands(g: GroupEntry, tokens: seq<string>, group: StudentGroup)
    requires SubjectsRepresentable(g.subjects)
    requires tokens == [g.group] + SubjectTokens(g.subjects)
    requires group == GroupOf(group.id, tokens)
    ensures group == StudentGroup(group.id, g.group, DemandsRead(g.subjects))
  {
    assert tokens[1..] == SubjectTokens(g.subjects);
    var pairs := Pairs(tokens[1..]);
    PairsAt(tokens[1..]);
    var kept := if |pairs| < MaxSubjects then pairs else pairs[..MaxSubjects];
    assert kept == pairs;
    assert group.demands == DemandsOf(pairs);
    DemandsOfAt(pairs);
    forall i | 0 <= i < |g.subjects|
      ensures group.demands[i] == Demand(g.subjects[i].0, g.subjects[i].1, 0)
    {
      SubjectTokensAt(g.subjects, i);
      assert pairs[i] == (g.subjects[i].0, ShowInt(g.subjects[i].1));
      PyIntShowInt(g.subjects[i].1);
    }
    assert group.demands == DemandsRead(g.subjects);
  }

  /** Parsing steps over a line the parser accepts. */
  lemma ParseFromStep(p: Parsed, lines: seq<string>, q: Parsed)
    requires InputData.WellFormed(p) && |lines| > 0
    requires ParseLine(p, lines[0]) == Some(q)
    ensures InputData.WellFormed(q)
    ensures ParseFrom(p, lines) == ParseFrom(q, lines[1..])
  {
    ParseLineWellFormed(p, lines[0]);
  }

  lemma GroupsReadCons(before: seq<StudentGroup>, gs: seq<GroupEntry>)
    requires |gs| > 0
    ensures before + [StudentGroup(|before|, gs[0].group, DemandsRead(gs[0].subjects))] + GroupsRead(|before| + 1, gs[1..])
      == before + GroupsRead(|before|, gs)
  {
  }

  lemma TeachersReadCons(before: seq<Teacher>, ts: seq<TeacherEntry>)
    requires |ts| > 0
    ensures before + [Teacher(|before|, ts[0].name, ts[0].subject, 0, [])] + TeachersRead(|before| + 1, ts[1..])
      == before + TeachersRead(|before|, ts)
  {
  }

  lemma {:induction false} GroupLinesParse(p: Parsed, gs: seq<GroupEntry>)
    requires InputData.WellFormed(p) && p.mode == GroupsMode
    requires forall i :: 0 <= i < |gs| ==>
      IsWord(gs[i].group) && SubjectsRepresentable(gs[i].subjects) &&
      (|gs[i].subjects| == 0 ==> KeywordMode(gs[i].group).None?)
    ensures ParseFrom(p, GroupLines(gs)) == Some(p.(groups := p.groups + GroupsRead(|p.groups|, gs)))
    decreases |gs|
  {
    if |gs| == 0 {
      assert p.groups + GroupsRead(|p.groups|, gs) == p.groups;
    } else {
      var q := GroupLinesStep(p, gs);
      GroupLinesParse(q, gs[1..]);
      GroupsReadStep(p, gs, q);
    }
  }

  lemma GroupsReadStep(p: Parsed, gs: seq<GroupEntry>, q: Parsed)
    requires |gs| > 0
    requires q == p.(groups := p.groups + [StudentGroup(|p.groups|, gs[0].group, DemandsRead(gs[0].subjects))])
    ensures q.(groups := q.groups + GroupsRead(|q.groups|, gs[1..])) == p.(groups := p.groups + GroupsRead(|p.groups|, gs))
  {
    GroupsReadCons(p.groups, gs);
    assert q.groups + GroupsRead(|q.groups|, gs[1..]) == p.groups + GroupsRead(|p.groups|, gs);
  }

  /** The first group line is read as the first group. */
  lemma GroupLinesStep(p: Parsed, gs: seq<GroupEntry>) returns (q: Parsed)
    requires InputData.WellFormed(p) && p.mode == GroupsMode && |gs| > 0
    requires IsWord(gs[0].group) && SubjectsRepresentable(gs[0].subjects)
    requires |gs[0].subjects| == 0 ==> KeywordMode(gs[0].group).None?
    ensures q == p.(groups := p.groups + [StudentGroup(|p.groups|, gs[0].group, DemandsRead(gs[0].subjects))])
    ensures InputData.WellFormed(q)
    ensures ParseFrom(p, GroupLines(gs)) == ParseFrom(q, GroupLines(gs[1..]))
  {
    var lines := GroupLines(gs);
    GroupLineParses(p, gs[0]);
    q := p.(groups := p.groups + [StudentGroup(|p.groups|, gs[0].group, DemandsRead(gs[0].subjects))]);
    assert lines[0] == GroupLine(gs[0]) && lines[1..] == GroupLines(gs[1..]);
    ParseFromStep(p, lines, q);
  }

  lemma TeacherLineParses(p: Parsed, t: TeacherEntry)
    requires p.mode == TeachersMode && IsWord(t.name) && IsWord(t.subject)
    ensures ParseLine(p, TeacherLine(t)) ==
      Some(p.(teachers := p.teachers + [Teacher(|p.teachers|, t.name, t.subject, 0, [])]))
  {
    var tokens := [t.name, t.subject];
    var line := TeacherLine(t);
    assert Join(tokens) == line by {
      assert tokens[1..] == [t.subject];
    }
    JoinedLine(p, tokens);
  }

  lemma {:induction false} TeacherLinesParse(p: Parsed, ts: seq<TeacherEntry>)
    requires InputData.WellFormed(p) && p.mode == TeachersMode
    requires forall i :: 0 <= i < |ts| ==> IsWord(ts[i].name) && IsWord(ts[i].subject)
    ensures ParseFrom(p, TeacherLines(ts)) == Some(p.(teachers := p.teachers + TeachersRead(|p.teachers|, ts)))
    decreases |ts|
  {
    var lines := TeacherLines(ts);
    if |ts| == 0 {
      assert p.teachers + TeachersRead(|p.teachers|, ts) == p.teachers;
    } else {
      TeacherLineParses(p, ts[0]);
      var q := p.(teachers := p.teachers + [Teacher(|p.teachers|, ts[0].name, ts[0].subject, 0, [])]);
      assert lines[0] == TeacherLine(ts[0]) && lines[1..] == TeacherLines(ts[1..]);
      ParseFromStep(p, lines, q);
      TeacherLinesParse(q, ts[1..]);
      TeachersReadStep(p, ts, q);
    }
  }

  lemma TeachersReadStep(p: Parsed, ts: seq<TeacherEntry>, q: Parsed)
    requires |ts| > 0
    requires q == p.(teachers := p.teachers + [Teacher(|p.teachers|, ts[0].name, ts[0].subject, 0, [])])
    ensures q.(teachers := q.teachers + TeachersRead(|q.teachers|, ts[1..])) == p.(teachers := p.teachers + TeachersRead(|p.teachers|, ts))
  {
    TeachersReadCons(p.teachers, ts);
    assert q.teachers + TeachersRead(|q.teachers|, ts[1..]) == p.teachers + TeachersRead(|p.teachers|, ts);
  }

  lemma UnavailableLineParses(p: Parsed, u: UnavailableEntry)
    requires p.mode == UnavailabilityMode && IsWord(u.name)
    requires |u.slots| == 0 ==> KeywordMode(u.name).None?
    ensures ParseLine(p, UnavailableLine(u)) ==
      if |u.slots| == 0 then Some(p)
      else if SlotsFit(u.slots) then Some(p.(unavailability := p.unavailability[Lower(u.name) := u.slots]))
      else None
  {
    var line := UnavailableLine(u);
    var slotTokens := SlotTokens(u.slots);
    if |u.slots| == 0 {
      assert line == u.name + " ";
      StripTrailingSpace(u.name);
      JoinedLine(p, [u.name]);
      assert ParseLine(p, line) == ParseStripped(p, u.name);
    } else {
      var tokens := [u.name] + slotTokens;
      forall i | 0 <= i < |tokens|
        ensures IsWord(tokens[i])
      {
        if i > 0 {
          ShowIntIsWord(u.slots[i - 1]);
        }
      }
      assert tokens[1..] == slotTokens;
      assert Join(tokens) == line;
      JoinedLine(p, tokens);
      SlotsRead(u.slots);
      if SlotsFit(u.slots) {
        UnavailableWords(p, line, tokens, u.slots);
      }
    }
  }

  /** The slot tokens read back as the slots when every slot is within the digit limit, and raise otherwise. */
  lemma SlotsRead(slots: seq<int>)
    ensures ParseSlots(SlotTokens(slots)) == if SlotsFit(slots) then Some(slots) else None
  {
    var ts := SlotTokens(slots);
    forall i | 0 <= i < |ts|
      ensures PyInt(ts[i]) == if StrFits(slots[i]) then Some(slots[i]) else None
    {
      PyIntShowInt(slots[i]);
    }
    if SlotsFit(slots) {
      assert ParseSlots(ts).Some?;
      assert ParseSlots(ts).value == slots;
    } else {
      var i :| 0 <= i < |slots| && !StrFits(slots[i]);
      assert PyInt(ts[i]).None?;
    }
  }

  lemma {:induction false} UnavailableLinesParse(p: Parsed, us: seq<UnavailableEntry>)
    requires InputData.WellFormed(p) && p.mode == UnavailabilityMode
    requires forall i :: 0 <= i < |us| ==>
      IsWord(us[i].name) && SlotsFit(us[i].slots) && (|us[i].slots| == 0 ==> KeywordMode(us[i].name).None?)
    ensures ParseFrom(p, UnavailableLines(us)) ==
      Some(p.(unavailability := UnavailabilityRead(p.unavailability, us)))
    decreases |us|
  {
    var lines := UnavailableLines(us);
    if |us| > 0 {
      UnavailableLineParses(p, us[0]);
      var q := if |us[0].slots| == 0 then p else p.(unavailability := p.unavailability[Lower(us[0].name) := us[0].slots]);
      assert lines[0] == UnavailableLine(us[0]) && lines[1..] == UnavailableLines(us[1..]);
      ParseFromStep(p, lines, q);
      UnavailableLinesParse(q, us[1..]);
    }
  }

  /**
   * Round trip: parsing the emitted file reads back every group with its
   * subjects and hours, every teacher with its subject, and the
   * unavailability lists, keyed by lower-cased name with later entries
   * winning; the parser ends outside any section.
   */
  lemma RoundTrip(req: Request)
    requires Representable(req)
    ensures ParseLines(TransformLines(req)) == Some(Parsed(
      Idle,
      GroupsRead(0, req.groups),
      TeachersRead(0, req.teachers),
      UnavailabilityRead(map[], req.unavailability)))
  {
    var p0 := Parsed(Idle, [], [], map[]);
    var s1 := Section("studentgroups", GroupLines(req.groups));
    var s2 := Section("teachers", TeacherLines(req.teachers));
    var s3 := Section("teacherunavailability", UnavailableLines(req.unavailability));
    GroupSection(p0, req.groups);
    var p1 := p0.(groups := GroupsRead(0, req.groups));
    assert [] + GroupsRead(0, req.groups) == GroupsRead(0, req.groups);
    TeacherSection(p1, req.teachers);
    var p2 := p1.(teachers := TeachersRead(0, req.teachers));
    assert [] + TeachersRead(0, req.teachers) == TeachersRead(0, req.teachers);
    UnavailableSection(p2, req.unavailability);
    ParseFromConcat(p0, s1 + s2, s3);
    ParseFromConcat(p0, s1, s2);
  }

  lemma GroupSection(p: Parsed, gs: seq<GroupEntry>)
    requires InputData.WellFormed(p) && p.mode == Idle
    requires forall i :: 0 <= i < |gs| ==>
      IsWord(gs[i].group) && SubjectsRepresentable(gs[i].subjects) &&
      (|gs[i].subjects| == 0 ==> KeywordMode(gs[i].group).None?)
    ensures ParseFrom(p, Section("studentgroups", GroupLines(gs))) == Some(p.(groups := p.groups + GroupsRead(|p.groups|, gs)))
  {
    assert IsWord("studentgroups") && Lower("studentgroups") == "studentgroups";
    KeywordLine(p, "studentgroups", GroupsMode);
    GroupLinesParse(p.(mode := GroupsMode), gs);
    var q := p.(mode := GroupsMode, groups := p.groups + GroupsRead(|p.groups|, gs));
    EndLine(q);
    SectionParses(p, "studentgroups", GroupLines(gs), "end", GroupsMode, q);
  }

  lemma TeacherSection(p: Parsed, ts: seq<TeacherEntry>)
    requires InputData.WellFormed(p) && p.mode == Idle
    requires forall i :: 0 <= i < |ts| ==> IsWord(ts[i].name) && IsWord(ts[i].subject)
    ensures ParseFrom(p, Section("teachers", TeacherLines(ts))) == Some(p.(teachers := p.teachers + TeachersRead(|p.teachers|, ts)))
  {
    assert IsWord("teachers") && Lower("teachers") == "teachers";
    KeywordLine(p, "teachers", TeachersMode);
    TeacherLinesParse(p.(mode := TeachersMode), ts);
    var q := p.(mode := TeachersMode, teachers := p.teachers + TeachersRead(|p.teachers|, ts));
    EndLine(q);
    SectionParses(p, "teachers", TeacherLines(ts), "end", TeachersMode, q);
  }

  lemma UnavailableSection(p: Parsed, us: seq<UnavailableEntry>)
    requires InputData.WellFormed(p) && p.mode == Idle
    requires forall i :: 0 <= i < |us| ==>
      IsWord(us[i].name) && SlotsFit(us[i].slots) && (|us[i].slots| == 0 ==> KeywordMode(us[i].name).None?)
    ensures ParseFrom(p, Section("teacherunavailability", UnavailableLines(us))) ==
      Some(p.(unavailability := UnavailabilityRead(p.unavailability, us)))
  {
    assert IsWord("teacherunavailability") && Lower("teacherunavailability") == "teacherunavailability";
    KeywordLine(p, "teacherunavailability", UnavailabilityMode);
    UnavailableLinesParse(p.(mode := UnavailabilityMode), us);
    var q := p.(mode := UnavailabilityMode, unavailability := UnavailabilityRead(p.unavailability, us));
    EndLine(q);
    SectionParses(p, "teacherunavailability", UnavailableLines(us), "end", UnavailabilityMode, q);
  }

  lemma EndLine(p: Parsed)
    ensures ParseLine(p, "end") == Some(p.(mode := Idle))
  {
    assert IsWord("end") && Lower("end") == "end";
    KeywordLine(p, "end", Idle);
  }

  /** A section opened by its keyword line, read line by line, then closed by its closing line. */
  lemma SectionParses(p: Parsed, keyword: string, body: seq<string>, close: string, m: Mode, q: Parsed)
    requires InputData.WellFormed(p)
    requires ParseLine(p, keyword) == Some(p.(mode := m))
    requires ParseFrom(p.(mode := m), body) == Some(q)
    requires ParseLine(q, close) == Some(q.(mode := Idle))
    ensures ParseFrom(p, [keyword] + body + [close]) == Some(q.(mode := Idle))
  {
    var lines := [keyword] + body + [close];
    ParseFromStep(p, lines, p.(mode := m));
    assert lines[1..] == body + [close];
    ParseFromConcat(p.(mode := m), body, [close]);
    ParseFromStep(q, [close], q.(mode := Idle));
  }
}
