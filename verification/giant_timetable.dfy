/**
 * The combined ("giant") timetable page: the user selects several classes,
 * and every slot number collects one `{class, subject}` entry per selected
 * class and subject whose list holds it.
 */
module GiantTimetable {
  import opened Common
  import opened SlotGrid
  import opened ViewTimetable

  /** One `{class: classId, subject}` item of a merged slot. */
  datatype Entry = Entry(classId: string, subject: string)

  /** `mergedSchedule`: slot number → the entries pushed for it. */
  type Merged = map<int, seq<Entry>>

  /** `merged[i] || []`. */
  function SlotEntries(m: Merged, i: int): seq<Entry> {
    if i in m then m[i] else []
  }

  /** Every key holds a non-empty list: keys are created only by a push. */
  predicate Keyed(m: Merged) {
    forall i :: i in m ==> |m[i]| > 0
  }

  // ---------------------------------------------------------------------------
  // The merge effect

  /** `if (!merged[i]) merged[i] = []; merged[i].push(e)`. */
  function Push(m: Merged, i: int, e: Entry): Merged {
    m[i := SlotEntries(m, i) + [e]]
  }

  /** `slots.forEach(...)` for one subject of one class. */
  function PushSlots(m: Merged, cls: string, subject: string, slots: seq<int>): Merged
    decreases |slots|
  {
    if |slots| == 0 then m
    else Push(PushSlots(m, cls, subject, slots[..|slots| - 1]), slots[|slots| - 1], Entry(cls, subject))
  }

  /** `Object.entries(ttable).forEach(...)`: array values in entry order, others skipped. */
  function PushTable(m: Merged, cls: string, t: Table): Merged
    decreases |t|
  {
    if |t| == 0 then m
    else
      var m' := PushTable(m, cls, t[..|t| - 1]);
      match t[|t| - 1].1
      case Text(_) | Other => m'
      case Slots(l) => PushSlots(m', cls, t[|t| - 1].0, l)
  }

  /** `selectedClasses.forEach(...)`: a class without a timetable or without a table adds nothing. */
  function PushClasses(m: Merged, sel: seq<string>, tts: seq<TimetableDoc>): Merged
    decreases |sel|
  {
    if |sel| == 0 then m
    else PushClass(PushClasses(m, sel[..|sel| - 1], tts), sel[|sel| - 1], tts)
  }

  /** The pushes for one selected class: its first timetable's table, if any. */
  function PushClass(m: Merged, c: string, tts: seq<TimetableDoc>): Merged {
    match FindTimetable(tts, c)
    case None => m
    case Some(k) =>
      match tts[k].ttable
      case None => m
      case Some(t) => PushTable(m, c, t)
  }

  /**
   * The effect on `[selectedClasses, timetables]`, the selection given in the
   * set's insertion order: null without a selection or without timetables,
   * else the merged schedule.
   */
  function Merge(sel: seq<string>, tts: seq<TimetableDoc>): (r: Option<Merged>)
    ensures r.None? <==> |sel| == 0 || |tts| == 0
  {
    if |sel| == 0 || |tts| == 0 then None else Some(PushClasses(map[], sel, tts))
  }

  /** `getSlotContent(d, h)`: `giantSchedule?.[d·7 + h] || []`. */
  function GiantSlotContent(merged: Option<Merged>, d: int, h: int): seq<Entry> {
    match merged
    case None => []
    case Some(m) => SlotEntries(m, FlatIndex(d, h))
  }

  // ---------------------------------------------------------------------------
  // The reference: the list of all (slot, entry) pairs

  function SlotPairs(cls: string, subject: string, slots: seq<int>): seq<(int, Entry)> {
    seq(|slots|, k requires 0 <= k < |slots| => (slots[k], Entry(cls, subject)))
  }

  function TablePairs(cls: string, t: Table): seq<(int, Entry)>
    decreases |t|
  {
    if |t| == 0 then []
    else
      TablePairs(cls, t[..|t| - 1]) +
      match t[|t| - 1].1
      case Text(_) | Other => []
      case Slots(l) => SlotPairs(cls, t[|t| - 1].0, l)
  }

  function ClassPairs(c: string, tts: seq<TimetableDoc>): seq<(int, Entry)> {
    match FindTimetable(tts, c)
    case None => []
    case Some(k) =>
      match tts[k].ttable
      case None => []
      case Some(t) => TablePairs(c, t)
  }

  /** Every (slot, entry) pair in selection order, then entry order, then list order. */
  function AllPairs(sel: seq<string>, tts: seq<TimetableDoc>): seq<(int, Entry)>
    decreases |sel|
  {
    if |sel| == 0 then [] else AllPairs(sel[..|sel| - 1], tts) + ClassPairs(sel[|sel| - 1], tts)
  }

  /** The entries of the pairs for slot i, in order. */
  function EntriesAt(ps: seq<(int, Entry)>, i: int): seq<Entry>
    decreases |ps|
  {
    if |ps| == 0 then []
    else EntriesAt(ps[..|ps| - 1], i) + (if ps[|ps| - 1].0 == i then [ps[|ps| - 1].1] else [])
  }

  lemma {:induction false} EntriesAtConcat(a: seq<(int, Entry)>, b: seq<(int, Entry)>, i: int)
    ensures EntriesAt(a + b, i) == EntriesAt(a, i) + EntriesAt(b, i)
    decreases |b|
  {
    if |b| == 0 {
      assert a + b == a;
    } else {
      var b' := b[..|b| - 1];
      EntriesAtConcat(a, b', i);
      assert (a + b)[..|a + b| - 1] == a + b';
      assert (a + b)[|a + b| - 1] == b[|b| - 1];
    }
  }

  /** The pushes of a list of pairs append exactly that list's entries to each slot. */
  ghost predicate Appends(m: Merged, r: Merged, ps: seq<(int, Entry)>) {
    && (Keyed(m) ==> Keyed(r))
    && forall i :: SlotEntries(r, i) == SlotEntries(m, i) + EntriesAt(ps, i)
  }

  lemma {:induction false} PushSlotsAppends(m: Merged, cls: string, subject: string, slots: seq<int>)
    ensures Appends(m, PushSlots(m, cls, subject, slots), SlotPairs(cls, subject, slots))
    decreases |slots|
  {
    if |slots| == 0 {
      assert Appends(m, m, []);
    } else {
      var init := slots[..|slots| - 1];
      var s, e := slots[|slots| - 1], Entry(cls, subject);
      PushSlotsAppends(m, cls, subject, init);
      var m1 := PushSlots(m, cls, subject, init);
      PushAppends(m1, s, e);
      AppendsTrans(m, m1, Push(m1, s, e), SlotPairs(cls, subject, init), [(s, e)]);
      assert SlotPairs(cls, subject, slots) == SlotPairs(cls, subject, init) + [(s, e)];
    }
  }

  /** One push appends its entry to its slot and leaves the other slots alone. */
  lemma PushAppends(m: Merged, s: int, e: Entry)
    ensures Appends(m, Push(m, s, e), [(s, e)])
  {
    var ps := [(s, e)];
    forall i
      ensures SlotEntries(Push(m, s, e), i) == SlotEntries(m, i) + EntriesAt(ps, i)
    {
      assert ps[..0] == [];
      if i == s {
        assert EntriesAt(ps, i) == [e];
      } else {
        assert EntriesAt(ps, i) == [];
        assert SlotEntries(m, i) + [] == SlotEntries(m, i);
      }
    }
  }

  lemma AppendsTrans(m: Merged, m1: Merged, m2: Merged, a: seq<(int, Entry)>, b: seq<(int, Entry)>)
    requires Appends(m, m1, a) && Appends(m1, m2, b)
    ensures Appends(m, m2, a + b)
  {
    forall i
      ensures SlotEntries(m2, i) == SlotEntries(m, i) + EntriesAt(a + b, i)
    {
      var x, ea, eb := SlotEntries(m, i), EntriesAt(a, i), EntriesAt(b, i);
      EntriesAtConcat(a, b, i);
      assert SlotEntries(m1, i) == x + ea;
      assert SlotEntries(m2, i) == (x + ea) + eb;
      assert (x + ea) + eb == x + (ea + eb);
    }
  }

  lemma {:induction false} PushTableAppends(m: Merged, cls: string, t: Table)
    ensures Appends(m, PushTable(m, cls, t), TablePairs(cls, t))
    decreases |t|
  {
    if |t| == 0 {
      assert Appends(m, m, []);
    } else {
      var init := t[..|t| - 1];
      PushTableAppends(m, cls, init);
      var m' := PushTable(m, cls, init);
      match t[|t| - 1].1
      case Text(_) | Other =>
        assert TablePairs(cls, t) == TablePairs(cls, init) + [] == TablePairs(cls, init);
      case Slots(l) =>
        PushSlotsAppends(m', cls, t[|t| - 1].0, l);
        AppendsTrans(m, m', PushTable(m, cls, t), TablePairs(cls, init), SlotPairs(cls, t[|t| - 1].0, l));
    }
  }

  lemma PushClassAppends(m: Merged, c: string, tts: seq<TimetableDoc>)
    ensures Appends(m, PushClass(m, c, tts), ClassPairs(c, tts))
  {
    match FindTimetable(tts, c)
    case None =>
      assert Appends(m, m, []);
    case Some(k) =>
      match tts[k].ttable
      case None =>
        assert Appends(m, m, []);
      case Some(t) =>
        PushTableAppends(m, c, t);
  }

  lemma {:induction false} PushClassesAppends(m: Merged, sel: seq<string>, tts: seq<TimetableDoc>)
    ensures Appends(m, PushClasses(m, sel, tts), AllPairs(sel, tts))
    decreases |sel|
  {
    if |sel| == 0 {
      assert Appends(m, m, []);
    } else {
      var init := sel[..|sel| - 1];
      var c := sel[|sel| - 1];
      PushClassesAppends(m, init, tts);
      var m' := PushClasses(m, init, tts);
      PushClassAppends(m', c, tts);
      AppendsTrans(m, m', PushClass(m', c, tts), AllPairs(init, tts), ClassPairs(c, tts));
    }
  }

  /**
   * The merged schedule holds for each slot exactly the entries of the pairs
   * for that slot, in selection order, then subject entry order; a slot has
   * a key exactly when it has an entry; and the page shows that list for a
   * cell, or [] without a schedule.
   */
  lemma MergeSpec(sel: seq<string>, tts: seq<TimetableDoc>)
    requires |sel| > 0 && |tts| > 0
    ensures var m := Merge(sel, tts).value;
      && (forall i :: SlotEntries(m, i) == EntriesAt(AllPairs(sel, tts), i))
      && (forall i :: i in m <==> EntriesAt(AllPairs(sel, tts), i) != [])
      && forall d, h :: GiantSlotContent(Some(m), d, h) == EntriesAt(AllPairs(sel, tts), FlatIndex(d, h))
  {
    PushClassesAppends(map[], sel, tts);
  }

  // ---------------------------------------------------------------------------
  // Counting entries

  /** The number of slot numbers in a table's array values. */
  function TableSize(t: Table): nat
    decreases |t|
  {
    if |t| == 0 then 0
    else TableSize(t[..|t| - 1]) + match t[|t| - 1].1 case Text(_) | Other => 0 case Slots(l) => |l|
  }

  /** The total length of the lists of the selected classes' tables. */
  function SelectionSize(sel: seq<string>, tts: seq<TimetableDoc>): nat
    decreases |sel|
  {
    if |sel| == 0 then 0
    else
      SelectionSize(sel[..|sel| - 1], tts) +
      match FindTimetable(tts, sel[|sel| - 1])
      case None => 0
      case Some(k) => match tts[k].ttable case None => 0 case Some(t) => TableSize(t)
  }

  lemma {:induction false} TablePairsSize(cls: string, t: Table)
    ensures |TablePairs(cls, t)| == TableSize(t)
    decreases |t|
  {
    if |t| > 0 {
      TablePairsSize(cls, t[..|t| - 1]);
    }
  }

  lemma {:induction false} AllPairsSize(sel: seq<string>, tts: seq<TimetableDoc>)
    ensures |AllPairs(sel, tts)| == SelectionSize(sel, tts)
    decreases |sel|
  {
    if |sel| > 0 {
      AllPairsSize(sel[..|sel| - 1], tts);
      var c := sel[|sel| - 1];
      match FindTimetable(tts, c)
      case None =>
      case Some(k) =>
        match tts[k].ttable
        case None =>
        case Some(t) => TablePairsSize(c, t);
    }
  }

  /** The number of entries over the slots ks. */
  function CountOver(ks: seq<int>, ps: seq<(int, Entry)>): nat
    decreases |ks|
  {
    if |ks| == 0 then 0 else CountOver(ks[..|ks| - 1], ps) + |EntriesAt(ps, ks[|ks| - 1])|
  }

  lemma {:induction false} CountOverSnoc(ks: seq<int>, ps: seq<(int, Entry)>, p: (int, Entry))
    ensures CountOver(ks, ps + [p]) == CountOver(ks, ps) + multiset(ks)[p.0]
    decreases |ks|
  {
    if |ks| > 0 {
      var init := ks[..|ks| - 1];
      CountOverSnoc(init, ps, p);
      assert ks == init + [ks[|ks| - 1]];
      assert (ps + [p])[..|ps + [p]| - 1] == ps;
    }
  }

  /** Summed over any duplicate-free list of slots covering them, the slots hold exactly as many entries as there are pairs. */
  lemma {:induction false} CountOverAll(ks: seq<int>, ps: seq<(int, Entry)>)
    requires NoDups(ks)
    requires forall j :: 0 <= j < |ps| ==> ps[j].0 in ks
    ensures CountOver(ks, ps) == |ps|
    decreases |ps|
  {
    if |ps| == 0 {
      CountOverEmpty(ks);
    } else {
      var init := ps[..|ps| - 1];
      var p := ps[|ps| - 1];
      assert forall j :: 0 <= j < |init| ==> init[j] == ps[j];
      CountOverAll(ks, init);
      assert ps == init + [p];
      CountOverSnoc(ks, init, p);
      NoDupsCount(ks, p.0);
    }
  }

  lemma {:induction false} CountOverEmpty(ks: seq<int>)
    ensures CountOver(ks, []) == 0
    decreases |ks|
  {
    if |ks| > 0 {
      CountOverEmpty(ks[..|ks| - 1]);
    }
  }

  /**
   * The merged schedule holds as many entries, over all its slots, as the
   * selected classes' lists hold slot numbers.
   */
  lemma MergeTotal(sel: seq<string>, tts: seq<TimetableDoc>, ks: seq<int>)
    requires |sel| > 0 && |tts| > 0
    requires NoDups(ks) && forall i :: i in Merge(sel, tts).value ==> i in ks
    ensures CountOver(ks, AllPairs(sel, tts)) == SelectionSize(sel, tts)
  {
    var ps := AllPairs(sel, tts);
    MergeSpec(sel, tts);
    forall j | 0 <= j < |ps|
      ensures ps[j].0 in ks
    {
      EntriesAtConcat(ps[..j], ps[j..], ps[j].0);
      EntriesAtConcat([ps[j]], ps[j + 1..], ps[j].0);
      assert ps == ps[..j] + ps[j..];
      assert ps[j..] == [ps[j]] + ps[j + 1..];
      assert EntriesAt([ps[j]], ps[j].0) == [ps[j].1] by {
        assert [ps[j]][..0] == [];
      }
    }
    CountOverAll(ks, ps);
    AllPairsSize(sel, tts);
  }

  // ---------------------------------------------------------------------------
  // The selection

  /** `list` without x. */
  function Remove(s: seq<string>, x: string): (r: seq<string>)
    ensures forall y :: y in r <==> y in s && y != x
    ensures NoDups(s) ==> NoDups(r)
    decreases |s|
  {
    if |s| == 0 then []
    else
      var rest := Remove(s[1..], x);
      if s[0] == x then rest
      else
        assert forall y :: y in rest ==> y in s[1..];
        assert NoDups(s) ==> s[0] !in s[1..];
        [s[0]] + rest
  }

  /**
   * `handleClassToggle(c)`: the selection, as the set's insertion order, loses
   * c when it has it and gains c at the end otherwise.
   */
  function ToggleClass(sel: seq<string>, c: string): (r: seq<string>)
    ensures c in r <==> c !in sel
    ensures forall x :: x != c ==> (x in r <==> x in sel)
    ensures NoDups(sel) ==> NoDups(r)
  {
    if c in sel then Remove(sel, c) else sel + [c]
  }

  /** Toggling the same class twice restores the selected set, and the order too when c was not selected. */
  lemma ToggleClassInvolution(sel: seq<string>, c: string)
    ensures Elems(ToggleClass(ToggleClass(sel, c), c)) == Elems(sel)
    ensures c !in sel && NoDups(sel) ==> ToggleClass(ToggleClass(sel, c), c) == sel
  {
    if c !in sel && NoDups(sel) {
      RemoveAppended(sel, c);
    }
  }

  lemma {:induction false} RemoveAppended(s: seq<string>, c: string)
    requires c !in s
    ensures Remove(s + [c], c) == s
    decreases |s|
  {
    if |s| == 0 {
      assert Remove([c], c) == Remove([c][1..], c);
    } else {
      assert (s + [c])[1..] == s[1..] + [c];
      RemoveAppended(s[1..], c);
    }
  }

  function ClassIds(tts: seq<TimetableDoc>): seq<string> {
    seq(|tts|, k requires 0 <= k < |tts| => tts[k].classId)
  }

  /**
   * `handleSelectAll`: when the selection has as many classes as there are
   * timetables it is cleared; otherwise every class id is selected, once, in
   * timetable order.
   */
  function SelectAll(sel: seq<string>, tts: seq<TimetableDoc>): (r: seq<string>)
    ensures |sel| == |tts| ==> r == []
    ensures |sel| != |tts| ==> NoDups(r) && Elems(r) == Elems(ClassIds(tts))
  {
    if |sel| == |tts| then [] else Dedup(ClassIds(tts))
  }

  /** With distinct class ids, a second press after selecting everything clears the selection. */
  lemma SelectAllTwice(sel: seq<string>, tts: seq<TimetableDoc>)
    requires NoDups(ClassIds(tts)) && |sel| != |tts|
    ensures SelectAll(sel, tts) == ClassIds(tts)
    ensures SelectAll(SelectAll(sel, tts), tts) == []
  {
    DedupOfDistinct(ClassIds(tts));
  }
}
