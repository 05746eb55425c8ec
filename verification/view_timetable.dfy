/**
 * The timetable view pages (the React page and its Next.js twin, which run the
 * same code): a stored timetable maps each subject to the slot numbers it
 * occupies; the on-screen grid inverts that table into slot → subject, and the
 * PDF export looks each cell up in the table directly.
 */
module ViewTimetable {
  import opened Common
  import opened SlotGrid
  import opened JsText
  import Chromosome
  import Gene

  /**
   * A value of the stored `ttable`: an array of slot numbers, a string, or
   * anything else (a number, null, an object), which has no `includes`.
   */
  datatype SlotsValue = Slots(slots: seq<int>) | Text(text: string) | Other

  /** `Object.entries(ttable)`: subject, value pairs in the object's key order. */
  type Table = seq<(string, SlotsValue)>

  /** A document of `/get/time-tables`: `class_id` and `ttable`, which may be missing. */
  datatype TimetableDoc = TimetableDoc(classId: string, ttable: Option<Table>)

  /** Entry k of the table is an array holding i. */
  predicate InEntry(t: Table, k: int, i: int) {
    0 <= k < |t| && t[k].1.Slots? && i in t[k].1.slots
  }

  /** `timetables.find(t => t.class_id === cls)`, as the position of the first match. */
  function FindTimetable(tts: seq<TimetableDoc>, cls: string): (r: Option<nat>)
    ensures r.Some? ==> r.value < |tts| && tts[r.value].classId == cls
    ensures r.Some? ==> forall k :: 0 <= k < r.value ==> tts[k].classId != cls
    ensures r.None? ==> forall k :: 0 <= k < |tts| ==> tts[k].classId != cls
    decreases |tts|
  {
    if |tts| == 0 then None
    else if tts[0].classId == cls then Some(0)
    else
      match FindTimetable(tts[1..], cls)
      case None => None
      case Some(k) => Some(k + 1)
  }

  /** `found.ttable || {}`. */
  function TableOf(doc: TimetableDoc): Table {
    match doc.ttable
    case None => []
    case Some(t) => t
  }

  // ---------------------------------------------------------------------------
  // The inversion effect

  /** `slots.forEach(i => slotMap[i] = subject)`. */
  function InvertSlots(m: map<int, string>, subject: string, slots: seq<int>): (r: map<int, string>)
    ensures forall i :: i in r <==> i in m || i in slots
    ensures forall i :: i in slots ==> r[i] == subject
    ensures forall i :: i in m && i !in slots ==> r[i] == m[i]
    decreases |slots|
  {
    if |slots| == 0 then m
    else
      var init := slots[..|slots| - 1];
      assert slots == init + [slots[|slots| - 1]];
      InvertSlots(m, subject, init)[slots[|slots| - 1] := subject]
  }

  /** The `Object.entries(ttable).forEach` of the effect: array values are inverted in entry order, others skipped. */
  function Invert(t: Table): (m: map<int, string>)
    ensures forall i :: i in m <==> exists k :: InEntry(t, k, i)
    decreases |t|
  {
    if |t| == 0 then map[]
    else
      var init := t[..|t| - 1];
      var m := Invert(init);
      assert forall i :: i in m <==> exists k :: 0 <= k < |t| - 1 && InEntry(t, k, i) by {
        forall k, i | 0 <= k < |t| - 1
          ensures InEntry(init, k, i) <==> InEntry(t, k, i)
        {
          assert init[k] == t[k];
        }
      }
      match t[|t| - 1].1
      case Text(_) => m
      case Other => m
      case Slots(l) =>
        var last := |t| - 1;
        assert forall i :: InEntry(t, last, i) <==> i in l;
        InvertSlots(m, t[last].0, l)
  }

  /** On a slot listed by several subjects the later entry wins: the slot shows the last entry that lists it. */
  lemma {:induction false} InvertLastWins(t: Table, k: nat, i: int)
    requires InEntry(t, k, i)
    requires forall k' :: k < k' < |t| ==> !InEntry(t, k', i)
    ensures i in Invert(t) && Invert(t)[i] == t[k].0
    decreases |t|
  {
    var init := t[..|t| - 1];
    if k < |t| - 1 {
      assert InEntry(init, k, i);
      forall k' | k < k' < |init|
        ensures !InEntry(init, k', i)
      {
        assert init[k'] == t[k'];
        assert !InEntry(t, k', i);
      }
      InvertLastWins(init, k, i);
      assert !InEntry(t, |t| - 1, i);
    }
  }

  /**
   * The effect on `[selectedClass, timetables]`: nothing happens without a
   * selection or without timetables; otherwise the schedule becomes the
   * inverted table of the first timetable of the selected class, or null when
   * there is none.
   */
  function ScheduleEffect(selected: string, tts: seq<TimetableDoc>, current: Option<map<int, string>>): (r: Option<map<int, string>>)
    ensures selected == "" || |tts| == 0 ==> r == current
    ensures selected != "" && |tts| > 0 && (forall k :: 0 <= k < |tts| ==> tts[k].classId != selected) ==> r == None
    ensures selected != "" && |tts| > 0 && FindTimetable(tts, selected).Some? ==>
              r == Some(Invert(TableOf(tts[FindTimetable(tts, selected).value])))
  {
    if selected == "" || |tts| == 0 then current
    else
      match FindTimetable(tts, selected)
      case None => None
      case Some(k) => Some(Invert(TableOf(tts[k])))
  }

  /** The on-screen cell: `currentSchedule[d·7 + t]`, or nothing. */
  function ScreenCell(schedule: Option<map<int, string>>, d: int, h: int): Option<string> {
    if schedule.Some? && FlatIndex(d, h) in schedule.value then Some(schedule.value[FlatIndex(d, h)]) else None
  }

  // ---------------------------------------------------------------------------
  // getSlotContent of the PDF export

  /**
   * `slots.includes(i)` on a value that has it: membership for an array, and
   * for a string an occurrence of `String(i)` in it, since a string's
   * `includes` converts its argument to a string.
   */
  predicate Matches(v: SlotsValue, i: int) {
    match v
    case Slots(l) => i in l
    case Text(s) => Includes(s, ShowInt(i))
    case Other => false
  }

  /** The loop stops at this value: it matches, or calling `includes` on it throws. */
  predicate Stops(v: SlotsValue, i: int) {
    v.Other? || Matches(v, i)
  }

  /**
   * The `for (const [subject, slots] of Object.entries(ttable))` loop: the
   * first subject whose value includes i, or "" when none does. None when a
   * value without `includes` is reached first (the call throws).
   */
  function FirstContaining(t: Table, i: int): (r: Option<string>)
    decreases |t|
  {
    if |t| == 0 then Some("")
    else
      match t[0].1
      case Other => None
      case Slots(l) => if i in l then Some(t[0].0) else FirstContaining(t[1..], i)
      case Text(s) => if Includes(s, ShowInt(i)) then Some(t[0].0) else FirstContaining(t[1..], i)
  }

  /**
   * Over any values, the loop's outcome is decided by the first entry it
   * stops at: that entry's subject when it matches, None when it throws, and
   * "" when it stops nowhere.
   */
  lemma {:induction false} FirstContainingStops(t: Table, i: int)
    ensures (forall k :: 0 <= k < |t| ==> !Stops(t[k].1, i)) ==> FirstContaining(t, i) == Some("")
    ensures forall k :: 0 <= k < |t| && Stops(t[k].1, i) && (forall k' :: 0 <= k' < k ==> !Stops(t[k'].1, i)) ==>
      FirstContaining(t, i) == if t[k].1.Other? then None else Some(t[k].0)
    decreases |t|
  {
    if |t| > 0 {
      var rest := t[1..];
      FirstContainingStops(rest, i);
      if forall k :: 0 <= k < |t| ==> !Stops(t[k].1, i) {
        forall k | 0 <= k < |rest|
          ensures !Stops(rest[k].1, i)
        {
          assert rest[k] == t[k + 1];
        }
      }
      forall k | 0 <= k < |t| && Stops(t[k].1, i) && (forall k' :: 0 <= k' < k ==> !Stops(t[k'].1, i))
        ensures FirstContaining(t, i) == if t[k].1.Other? then None else Some(t[k].0)
      {
        if k > 0 {
          assert !Stops(t[0].1, i);
          assert rest[k - 1] == t[k];
          forall k' | 0 <= k' < k - 1
            ensures !Stops(rest[k'].1, i)
          {
            assert rest[k'] == t[k' + 1];
          }
        }
      }
    }
  }

  /** A string value reports its subject for every slot whose digits appear in it: "0,12" lists 0, 1, 2 and 12. */
  lemma TextValueMatchesDigits()
    ensures FirstContaining([("Math", Text("0,12"))], 12) == Some("Math")
    ensures FirstContaining([("Math", Text("0,12"))], 1) == Some("Math")
    ensures FirstContaining([("Math", Text("0,12"))], 3) == Some("")
  {
    var s := "0,12";
    assert ShowInt(12) == "12" by {
      assert PyText.ShowNat(12) == PyText.ShowNat(1) + [PyText.DigitChar(2)];
    }
    assert OccursAt(s, "12", 2);
    assert ShowInt(1) == "1";
    assert OccursAt(s, "1", 2);
    assert ShowInt(3) == "3";
    assert forall k :: 0 <= k < |s| ==> s[k] != '3';
    assert forall k :: OccursAt(s, "3", k) ==> s[k..k + 1][0] == s[k];
    assert [("Math", Text(s))][1..] == [];
  }

  predicate AllLists(t: Table) {
    forall k :: 0 <= k < |t| ==> t[k].1.Slots?
  }

  /** When every value is an array, the loop returns the subject of the first entry listing i, or "" when none does. */
  lemma {:induction false} FirstContainingSpec(t: Table, i: int)
    requires AllLists(t)
    ensures (forall k :: !InEntry(t, k, i)) ==> FirstContaining(t, i) == Some("")
    ensures forall k :: InEntry(t, k, i) && (forall k' :: 0 <= k' < k ==> !InEntry(t, k', i)) ==> FirstContaining(t, i) == Some(t[k].0)
    decreases |t|
  {
    if |t| > 0 {
      var rest := t[1..];
      forall k, j | 0 <= k < |rest|
        ensures InEntry(rest, k, j) <==> InEntry(t, k + 1, j)
      {
        assert rest[k] == t[k + 1];
      }
      FirstContainingSpec(rest, i);
      if forall k :: !InEntry(t, k, i) {
        forall k | 0 <= k < |rest|
          ensures !InEntry(rest, k, i)
        {
          assert !InEntry(t, k + 1, i);
        }
        assert !InEntry(t, 0, i);
      }
      forall k | InEntry(t, k, i) && (forall k' :: 0 <= k' < k ==> !InEntry(t, k', i))
        ensures FirstContaining(t, i) == Some(t[k].0)
      {
        if k > 0 {
          assert !InEntry(t, 0, i);
          assert InEntry(rest, k - 1, i);
        }
      }
    }
  }

  /** `getSlotContent(groupName, d, h)`: "" for an unknown class or a missing table, else the loop above. */
  function SlotContent(tts: seq<TimetableDoc>, cls: string, d: int, h: int): Option<string> {
    match FindTimetable(tts, cls)
    case None => Some("")
    case Some(k) =>
      match tts[k].ttable
      case None => Some("")
      case Some(t) => FirstContaining(t, FlatIndex(d, h))
  }

  /** No slot is listed by two different entries, as in a table built from one chromosome. */
  ghost predicate Disjoint(t: Table) {
    forall k1, k2, i :: InEntry(t, k1, i) && InEntry(t, k2, i) ==> k1 == k2
  }

  /** With array values and disjoint lists, the inverted map and the loop agree on every slot. */
  lemma InvertAgrees(t: Table, i: int)
    requires AllLists(t) && Disjoint(t)
    ensures i in Invert(t) ==> FirstContaining(t, i) == Some(Invert(t)[i])
    ensures i !in Invert(t) ==> FirstContaining(t, i) == Some("")
  {
    FirstContainingSpec(t, i);
    if i in Invert(t) {
      var k :| InEntry(t, k, i);
      InvertLastWins(t, k, i);
    }
  }

  /**
   * For the selected class, the on-screen grid and the PDF export show the
   * same subject in every cell (the PDF's "" for an empty cell), whenever the
   * class's table has array values with disjoint lists.
   */
  lemma ScreenAgreesWithPdf(selected: string, tts: seq<TimetableDoc>, current: Option<map<int, string>>, d: int, h: int)
    requires selected != "" && FindTimetable(tts, selected).Some?
    requires var t := TableOf(tts[FindTimetable(tts, selected).value]); AllLists(t) && Disjoint(t)
    ensures var cell := ScreenCell(ScheduleEffect(selected, tts, current), d, h);
      SlotContent(tts, selected, d, h) == Some(if cell.Some? then cell.value else "")
  {
    var t := TableOf(tts[FindTimetable(tts, selected).value]);
    InvertAgrees(t, FlatIndex(d, h));
  }

  /**
   * A table built from `print_time_table`'s dict for one gene — each subject
   * once, each with its list of positions — has array values and disjoint
   * lists, so both views of it agree.
   */
  lemma PrintedTableDisjoint(cfg: Chromosome.Config, gene: Gene.Gene, n: nat, t: Table)
    requires Chromosome.InPool(cfg, gene, n)
    requires var m := Chromosome.SubjectPositions(cfg, gene, n);
      forall k :: 0 <= k < |t| ==> t[k].0 in m && t[k].1 == Slots(m[t[k].0])
    requires forall k1, k2 :: 0 <= k1 < k2 < |t| ==> t[k1].0 != t[k2].0
    ensures AllLists(t) && Disjoint(t)
  {
    var m := Chromosome.SubjectPositions(cfg, gene, n);
    forall k1, k2, i | InEntry(t, k1, i) && InEntry(t, k2, i)
      ensures k1 == k2
    {
      var s1, s2 := t[k1].0, t[k2].0;
      var a :| 0 <= a < |m[s1]| && m[s1][a] == i;
      var b :| 0 <= b < |m[s2]| && m[s2][b] == i;
      Chromosome.SubjectListsDisjoint(cfg, gene, n, s1, s2, a, b);
    }
  }
}
