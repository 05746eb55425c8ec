/**
 * The lesson pool (backend/app/algorithm/time_table.py): one entry per
 * (student group, weekly slot), laid out group after group. A group's
 * `days * hours` entries hold each of its subjects `max(1, hours)` times in
 * subject order, then free periods (`None`); lessons beyond the week are
 * dropped.
 */
module Pool {
  import opened Common
  import opened InputData

  /** A scheduled lesson (`Slot`): which group, which teacher index, which subject. */
  datatype Lesson = Lesson(group: nat, groupName: string, teacherId: nat, subject: string)

  function LessonOf(g: nat, sg: StudentGroup, d: Demand): Lesson {
    Lesson(g, sg.name, d.teacherId, d.subject)
  }

  /** The number of pool entries a subject occupies: its hours, but at least one. */
  function Copies(hours: int): (n: nat)
    ensures n >= 1
  {
    if hours < 1 then 1 else hours
  }

  function Repeat<T>(x: T, n: nat): (r: seq<T>)
    ensures |r| == n && forall i :: 0 <= i < n ==> r[i] == x
  {
    if n == 0 then [] else [x] + Repeat(x, n - 1)
  }

  /** Reference layout: every subject of `ds` repeated `Copies(hours)` times, in order. */
  function Expanded(g: nat, sg: StudentGroup, ds: seq<Demand>): seq<Lesson>
    decreases |ds|
  {
    if |ds| == 0 then [] else Repeat(LessonOf(g, sg, ds[0]), Copies(ds[0].hours)) + Expanded(g, sg, ds[1..])
  }

  function Total(ds: seq<Demand>): nat
  {
    if |ds| == 0 then 0 else Copies(ds[0].hours) + Total(ds[1..])
  }

  lemma {:induction false} ExpandedLength(g: nat, sg: StudentGroup, ds: seq<Demand>)
    ensures |Expanded(g, sg, ds)| == Total(ds)
    decreases |ds|
  {
    if |ds| > 0 {
      ExpandedLength(g, sg, ds[1..]);
    }
  }

  /** The first n entries of `lessons` followed by free periods, n entries in all. */
  function PadTo(lessons: seq<Lesson>, n: nat): (r: seq<Option<Lesson>>)
    ensures |r| == n
    ensures forall i :: 0 <= i < n ==> r[i] == if i < |lessons| then Some(lessons[i]) else None
  {
    seq(n, i requires 0 <= i < n => if i < |lessons| then Some(lessons[i]) else None)
  }

  /**
   * The inner loop of the pool construction for one group, with `left`
   * iterations to go, the subject index and the hour count within it.
   */
  function GroupLoop(g: nat, sg: StudentGroup, subjectNo: nat, hourCount: int, left: nat): (r: seq<Option<Lesson>>)
    ensures |r| == left
    decreases left
  {
    if left == 0 then []
    else if subjectNo >= |sg.demands| then [None] + GroupLoop(g, sg, subjectNo, hourCount, left - 1)
    else
      var d := sg.demands[subjectNo];
      var entry := Some(LessonOf(g, sg, d));
      if hourCount < d.hours then [entry] + GroupLoop(g, sg, subjectNo, hourCount + 1, left - 1)
      else [entry] + GroupLoop(g, sg, subjectNo + 1, 1, left - 1)
  }

  /** A group's pool entries for a week of `slots` slots. */
  function GroupEntries(g: nat, sg: StudentGroup, slots: nat): (r: seq<Option<Lesson>>)
    ensures |r| == slots
  {
    GroupLoop(g, sg, 0, 1, slots)
  }

  /** What the loop still has to emit: the rest of the current subject, then the later subjects. */
  function Pending(g: nat, sg: StudentGroup, subjectNo: nat, hourCount: int): seq<Lesson>
    requires subjectNo < |sg.demands|
    requires 1 <= hourCount <= Copies(sg.demands[subjectNo].hours)
  {
    Repeat(LessonOf(g, sg, sg.demands[subjectNo]), Copies(sg.demands[subjectNo].hours) - hourCount + 1)
      + Expanded(g, sg, sg.demands[subjectNo + 1..])
  }

  /** What the loop emits next, and what it still has to emit after that. */
  function PendingAfter(g: nat, sg: StudentGroup, subjectNo: nat, hourCount: int): seq<Lesson>
    requires subjectNo <= |sg.demands|
    requires subjectNo < |sg.demands| ==> 1 <= hourCount <= Copies(sg.demands[subjectNo].hours)
  {
    if subjectNo < |sg.demands| then Pending(g, sg, subjectNo, hourCount) else []
  }

  lemma PendingSameSubject(g: nat, sg: StudentGroup, subjectNo: nat, hourCount: int)
    requires subjectNo < |sg.demands|
    requires 1 <= hourCount < sg.demands[subjectNo].hours
    ensures Pending(g, sg, subjectNo, hourCount) == [LessonOf(g, sg, sg.demands[subjectNo])] + Pending(g, sg, subjectNo, hourCount + 1)
  {
    var x := LessonOf(g, sg, sg.demands[subjectNo]);
    var c := Copies(sg.demands[subjectNo].hours) - hourCount + 1;
    assert Repeat(x, c) == [x] + Repeat(x, c - 1);
  }

  lemma PendingNextSubject(g: nat, sg: StudentGroup, subjectNo: nat, hourCount: int)
    requires subjectNo < |sg.demands|
    requires hourCount == Copies(sg.demands[subjectNo].hours)
    ensures Pending(g, sg, subjectNo, hourCount) == [LessonOf(g, sg, sg.demands[subjectNo])] + PendingAfter(g, sg, subjectNo + 1, 1)
  {
    var rest := Expanded(g, sg, sg.demands[subjectNo + 1..]);
    if subjectNo + 1 < |sg.demands| {
      assert sg.demands[subjectNo + 1..] == [sg.demands[subjectNo + 1]] + sg.demands[subjectNo + 2..];
    } else {
      assert sg.demands[subjectNo + 1..] == [];
    }
  }

  lemma {:induction false} GroupLoopPending(g: nat, sg: StudentGroup, subjectNo: nat, hourCount: int, left: nat)
    requires subjectNo <= |sg.demands|
    requires subjectNo < |sg.demands| ==> 1 <= hourCount <= Copies(sg.demands[subjectNo].hours)
    ensures GroupLoop(g, sg, subjectNo, hourCount, left) == PadTo(PendingAfter(g, sg, subjectNo, hourCount), left)
    decreases left
  {
    if left > 0 {
      if subjectNo >= |sg.demands| {
        GroupLoopPending(g, sg, subjectNo, hourCount, left - 1);
      } else {
        var d := sg.demands[subjectNo];
        var x := LessonOf(g, sg, d);
        if hourCount < d.hours {
          GroupLoopPending(g, sg, subjectNo, hourCount + 1, left - 1);
          PendingSameSubject(g, sg, subjectNo, hourCount);
          PadToCons(x, Pending(g, sg, subjectNo, hourCount + 1), left - 1);
        } else {
          GroupLoopPending(g, sg, subjectNo + 1, 1, left - 1);
          PendingNextSubject(g, sg, subjectNo, hourCount);
          PadToCons(x, PendingAfter(g, sg, subjectNo + 1, 1), left - 1);
        }
      }
    }
  }

  lemma PadToCons(x: Lesson, xs: seq<Lesson>, n: nat)
    ensures PadTo([x] + xs, n + 1) == [Some(x)] + PadTo(xs, n)
  {
  }

  /** A group's entries are its subjects, each `max(1, hours)` times in order, cut or padded to the week. */
  lemma GroupEntriesLayout(g: nat, sg: StudentGroup, slots: nat)
    ensures GroupEntries(g, sg, slots) == PadTo(Expanded(g, sg, sg.demands), slots)
  {
    GroupLoopPending(g, sg, 0, 1, slots);
    if |sg.demands| > 0 {
      assert sg.demands == [sg.demands[0]] + sg.demands[1..];
      assert Pending(g, sg, 0, 1) == Expanded(g, sg, sg.demands);
    }
  }

  /** The pool: the groups' entries, group after group. */
  function BuildPool(groups: seq<StudentGroup>, days: nat, hours: nat): (r: seq<Option<Lesson>>)
    ensures |r| == |groups| * (days * hours)
  {
    PoolFrom(groups, 0, days * hours)
  }

  function PoolFrom(groups: seq<StudentGroup>, g: nat, slots: nat): (r: seq<Option<Lesson>>)
    requires g <= |groups|
    ensures |r| == (|groups| - g) * slots
    decreases |groups| - g
  {
    if g == |groups| then []
    else
      MulDiff(|groups| - g, |groups| - g - 1, slots);
      GroupEntries(g, groups[g], slots) + PoolFrom(groups, g + 1, slots)
  }

  lemma MulMono(a: int, b: int, c: int)
    requires a <= b && c >= 0
    ensures a * c <= b * c
  {
    MulDiff(b, a, c);
    if b > a && c > 0 {
      MulAtLeast(b - a, c);
    }
  }

  lemma {:induction false} PoolFromAt(groups: seq<StudentGroup>, g: nat, slots: nat, k: nat, j: nat)
    requires g + k < |groups| && j < slots
    ensures k * slots + j < |PoolFrom(groups, g, slots)|
    ensures PoolFrom(groups, g, slots)[k * slots + j] == GroupEntries(g + k, groups[g + k], slots)[j]
    decreases k
  {
    var first := GroupEntries(g, groups[g], slots);
    var rest := PoolFrom(groups, g + 1, slots);
    var all := PoolFrom(groups, g, slots);
    assert all == first + rest;
    if k == 0 {
      assert k * slots + j == j;
    } else {
      PoolFromAt(groups, g + 1, slots, k - 1, j);
      var m := (k - 1) * slots + j;
      assert m < |rest|;
      assert k * slots + j == slots + m by {
        MulDiff(k, k - 1, slots);
      }
      TailAt(first, rest, m);
    }
  }

  lemma TailAt<T>(a: seq<T>, b: seq<T>, m: nat)
    requires m < |b|
    ensures (a + b)[|a| + m] == b[m]
  {
  }

  /** Entry j of group g's week sits at index g * slots + j of the pool. */
  lemma PoolAt(groups: seq<StudentGroup>, days: nat, hours: nat, g: nat, j: nat)
    requires g < |groups| && j < days * hours
    ensures g * (days * hours) + j < |BuildPool(groups, days, hours)|
    ensures BuildPool(groups, days, hours)[g * (days * hours) + j] == GroupEntries(g, groups[g], days * hours)[j]
  {
    PoolFromAt(groups, 0, days * hours, g, j);
  }

  /**
   * Lessons beyond the week are dropped: a group whose subjects need more
   * than `slots` entries gets exactly `slots` lessons and no free period.
   */
  lemma OverfullGroupIsCut(g: nat, sg: StudentGroup, slots: nat)
    requires Total(sg.demands) >= slots
    ensures forall j :: 0 <= j < slots ==> GroupEntries(g, sg, slots)[j].Some?
  {
    GroupEntriesLayout(g, sg, slots);
    ExpandedLength(g, sg, sg.demands);
  }
}
