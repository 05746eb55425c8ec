/**
 * The teacher availability pages (the Next.js page and its React Router twin):
 * a 5×7 grid of 0/1 cells that the teacher toggles, flattened on submission
 * into the sorted list of slot numbers `day·7 + hour` whose cell is 1, and the
 * hand-written fallback that extracts `teacher_id` from a malformed query
 * string. The URL's standard query parsing is a parameter.
 */
module AvailabilityPage {
  import opened Common
  import opened PyText
  import opened SlotGrid
  import opened JsText

  /** The `unavailability` state: one row of cells per day, in day order; 1 marks an unavailable hour. */
  type Grid = seq<seq<int>>

  predicate Shaped(g: Grid) {
    |g| == Days && forall d :: 0 <= d < |g| ==> |g[d]| == HoursPerDay
  }

  predicate Binary(g: Grid) {
    forall d, h :: 0 <= d < |g| && 0 <= h < |g[d]| ==> g[d][h] == 0 || g[d][h] == 1
  }

  // ---------------------------------------------------------------------------
  // Grid initialisation and handleSlotClick

  /** The initial state: for every day, `new Array(hours.length).fill(0)`. */
  function InitialGrid(): (g: Grid)
    ensures Shaped(g) && Binary(g)
    ensures forall d, h :: InGrid(d, h) ==> g[d][h] == 0
  {
    seq(Days, _ => seq(HoursPerDay, _ => 0))
  }

  /** `handleSlotClick(day, h)`: the clicked cell becomes 1 if it was 0 and 0 otherwise; nothing else changes. */
  function Toggle(g: Grid, d: nat, h: nat): (r: Grid)
    requires d < |g| && h < |g[d]|
    ensures |r| == |g| && forall k :: 0 <= k < |r| ==> |r[k]| == |g[k]|
    ensures r[d][h] == (if g[d][h] == 0 then 1 else 0)
    ensures forall k, j :: 0 <= k < |g| && 0 <= j < |g[k]| && (k != d || j != h) ==> r[k][j] == g[k][j]
  {
    g[d := g[d][h := if g[d][h] == 0 then 1 else 0]]
  }

  /** Clicking a 0/1 cell twice restores the grid. */
  lemma ToggleInvolution(g: Grid, d: nat, h: nat)
    requires d < |g| && h < |g[d]|
    requires g[d][h] == 0 || g[d][h] == 1
    ensures Toggle(Toggle(g, d, h), d, h) == g
  {
    var r := Toggle(Toggle(g, d, h), d, h);
    assert r[d] == g[d];
  }

  /** Toggling keeps the grid's shape and keeps every cell 0 or 1. */
  lemma TogglePreservesShape(g: Grid, d: nat, h: nat)
    requires d < |g| && h < |g[d]|
    ensures Shaped(g) ==> Shaped(Toggle(g, d, h))
    ensures Binary(g) ==> Binary(Toggle(g, d, h))
  {
  }

  // ---------------------------------------------------------------------------
  // submitData: flattening

  /** The numbers of the cells equal to 1 in one day's row, from hour h on, in hour order. */
  function RowSlots(row: seq<int>, d: int, h: nat): (r: seq<int>)
    ensures forall i :: 0 <= i < |r| ==> d * 7 + h <= r[i] < d * 7 + |row| && row[r[i] - d * 7] == 1
    ensures forall k :: h <= k < |row| && row[k] == 1 ==> d * 7 + k in r
    ensures StrictlyIncreasing(r)
    decreases |row| - h
  {
    if h >= |row| then []
    else
      var rest := RowSlots(row, d, h + 1);
      if row[h] == 1 then
        IncreasingAppend([FlatIndex(d, h)], rest);
        [FlatIndex(d, h)] + rest
      else rest
  }

  /** The slots of days d, d+1, ...: the nested `forEach` over days and hours. */
  function FlattenFrom(g: Grid, d: nat): seq<int>
    decreases |g| - d
  {
    if d >= |g| then [] else RowSlots(g[d], d, 0) + FlattenFrom(g, d + 1)
  }

  /** `selectedSlots`: every `dayIndex * 7 + hourIndex` whose cell `=== 1`. */
  function Flatten(g: Grid): seq<int> {
    FlattenFrom(g, 0)
  }

  /** A slot of day d's row lies in that day and numbers a cell equal to 1. */
  lemma RowSlotDecodes(g: Grid, d: nat, x: int)
    requires Shaped(g) && d < |g| && x in RowSlots(g[d], d, 0)
    ensures d * 7 <= x < d * 7 + 7 && x < WeekSlots && g[x / 7][x % 7] == 1
  {
    DivModUnique(x, 7, d, x - d * 7);
  }

  /** Every cell of day d equal to 1 is among the slots of that day's row. */
  lemma RowSlotComplete(g: Grid, d: nat, x: int)
    requires Shaped(g) && d < |g| && d * 7 <= x < d * 7 + 7 && x < WeekSlots && g[x / 7][x % 7] == 1
    ensures x in RowSlots(g[d], d, 0)
  {
    DivModUnique(x, 7, d, x - d * 7);
  }

  lemma {:induction false} FlattenFromSlots(g: Grid, d: nat)
    requires Shaped(g) && d <= |g|
    ensures StrictlyIncreasing(FlattenFrom(g, d))
    ensures forall x :: x in FlattenFrom(g, d) <==> d * 7 <= x < WeekSlots && g[x / 7][x % 7] == 1
    decreases |g| - d
  {
    if d < |g| {
      FlattenFromSlots(g, d + 1);
      var row := RowSlots(g[d], d, 0);
      var rest := FlattenFrom(g, d + 1);
      assert FlattenFrom(g, d) == row + rest;
      forall x, y | x in row && y in rest
        ensures x < y
      {
        RowSlotDecodes(g, d, x);
      }
      IncreasingAppend(row, rest);
      forall x | x in row
        ensures d * 7 <= x < WeekSlots && g[x / 7][x % 7] == 1
      {
        RowSlotDecodes(g, d, x);
      }
      forall x | d * 7 <= x < WeekSlots && g[x / 7][x % 7] == 1
        ensures x in row + rest
      {
        if x < d * 7 + 7 {
          RowSlotComplete(g, d, x);
        }
      }
    }
  }

  /** The submitted slots are exactly `{d·7+h | cell (d,h) is 1}`, strictly increasing and within [0, 35). */
  lemma FlattenSlots(g: Grid)
    requires Shaped(g)
    ensures StrictlyIncreasing(Flatten(g))
    ensures forall x :: x in Flatten(g) ==> 0 <= x < WeekSlots
    ensures forall x :: x in Flatten(g) <==> 0 <= x < WeekSlots && g[x / 7][x % 7] == 1
    ensures forall d, h :: InGrid(d, h) ==> (FlatIndex(d, h) in Flatten(g) <==> g[d][h] == 1)
  {
    FlattenFromSlots(g, 0);
    forall d, h | InGrid(d, h)
      ensures FlatIndex(d, h) in Flatten(g) <==> g[d][h] == 1
    {
      FlatIndexDecodes(d, h);
    }
  }

  /** An untouched grid submits no slot. */
  lemma InitialGridSubmitsNothing()
    ensures forall x :: x !in Flatten(InitialGrid())
  {
    var g := InitialGrid();
    FlattenSlots(g);
    FlatIndexBijection();
  }

  /** A click adds the clicked slot to the submission or removes it, and leaves every other slot as it was. */
  lemma ToggleFlatten(g: Grid, d: nat, h: nat)
    requires Shaped(g) && Binary(g) && InGrid(d, h)
    ensures FlatIndex(d, h) in Flatten(Toggle(g, d, h)) <==> FlatIndex(d, h) !in Flatten(g)
    ensures forall x :: x != FlatIndex(d, h) ==> (x in Flatten(Toggle(g, d, h)) <==> x in Flatten(g))
  {
    var r := Toggle(g, d, h);
    TogglePreservesShape(g, d, h);
    FlattenSlots(g);
    FlattenSlots(r);
    FlatIndexDecodes(d, h);
    forall x | x != FlatIndex(d, h)
      ensures x in Flatten(r) <==> x in Flatten(g)
    {
      if 0 <= x < WeekSlots {
        FlatIndexBijection();
        assert FlatIndex(x / 7, x % 7) == x;
      }
    }
  }

  // ---------------------------------------------------------------------------
  // submitData: the request

  /** The JSON body posted to `/availability/submit`. */
  datatype Payload = Payload(teacherId: string, slots: seq<int>, submitted: bool)

  /**
   * `submitData`: without a teacher id (null or the empty string) nothing is
   * sent; otherwise the payload carries the id, the flattened grid and
   * `submitted: true`.
   */
  function Submit(teacherId: Option<string>, g: Grid): (r: Option<Payload>)
    ensures r.None? <==> teacherId == None || teacherId == Some("")
    ensures r.Some? ==> r.value.teacherId == teacherId.value && r.value.submitted
    ensures r.Some? && Shaped(g) ==> StrictlyIncreasing(r.value.slots)
    ensures r.Some? && Shaped(g) ==> forall x :: x in r.value.slots <==> 0 <= x < WeekSlots && g[x / 7][x % 7] == 1
  {
    if teacherId == None || teacherId == Some("") then None
    else
      assert Shaped(g) ==> StrictlyIncreasing(Flatten(g)) && forall x :: x in Flatten(g) <==> 0 <= x < WeekSlots && g[x / 7][x % 7] == 1 by {
        if Shaped(g) {
          FlattenSlots(g);
        }
      }
      Some(Payload(teacherId.value, Flatten(g), true))
  }

  // ---------------------------------------------------------------------------
  // getTeacherIdFromUrl (the Next.js page only)

  const IdKey: string := "teacher_id="

  /** `s.split(c)[0]` stops at the first c: when it is shorter than s, c comes next. */
  lemma {:induction false} BeforeFirstStops(s: string, c: char)
    ensures |BeforeFirst(s, c)| < |s| ==> s[|BeforeFirst(s, c)|] == c
    decreases |s|
  {
    if |s| > 0 && s[0] != c {
      BeforeFirstStops(s[1..], c);
    }
  }

  /** `after.split('teacher_id=')[0]`: the text up to the next `teacher_id=`, or all of it. */
  function NextPart(after: string): (part: string)
    ensures part <= after
  {
    match IndexOf(after, IdKey)
    case None => after
    case Some(j) => after[..j]
  }

  /** `.split('&')[0]` of that part: the id read from the text that follows a `teacher_id=`. */
  function IdOf(after: string): string {
    BeforeFirst(NextPart(after), '&')
  }

  /**
   * The fallback: `search.split('teacher_id=')[1].split('&')[0]`, i.e. the
   * text after the first `teacher_id=`, cut at the next `teacher_id=` and
   * then at the first `&`; None when `teacher_id=` does not occur.
   */
  function FallbackId(search: string): Option<string> {
    match IndexOf(search, IdKey)
    case None => None
    case Some(i) => Some(IdOf(search[i + |IdKey|..]))
  }

  /** The occurrence of the key at k inside a prefix is an occurrence in the whole. */
  lemma PrefixOccurs(a: string, b: string, k: int, pat: string)
    requires a <= b && OccursAt(a, pat, k)
    ensures OccursAt(b, pat, k)
  {
    assert b[k..k + |pat|] == a[k..k + |pat|];
  }

  /** The id read from `after` contains neither `&` nor the key. */
  lemma IdOfClean(after: string)
    ensures '&' !in IdOf(after)
    ensures forall k :: !OccursAt(IdOf(after), IdKey, k)
  {
    var part := NextPart(after);
    var id := IdOf(after);
    forall k | OccursAt(id, IdKey, k)
      ensures false
    {
      PrefixOccurs(id, part, k, IdKey);
      if IndexOf(after, IdKey).Some? {
        assert OccursAt(after, IdKey, k);
      }
    }
  }

  /** The id read from `after` is a prefix of it, followed by the end, a `&` or the key. */
  lemma IdOfStops(after: string)
    ensures IdOf(after) <= after
    ensures var n := |IdOf(after)|; n == |after| || after[n] == '&' || OccursAt(after, IdKey, n)
  {
    var part := NextPart(after);
    var id := IdOf(after);
    BeforeFirstStops(part, '&');
    if |id| < |part| {
      assert after[|id|] == part[|id|];
    }
  }

  /** The id sits at start and stops at the end of s, at a `&` or at an occurrence of pat. */
  predicate StopsAt(s: string, start: nat, id: string, pat: string) {
    && start + |id| <= |s|
    && s[start..start + |id|] == id
    && (start + |id| == |s| || s[start + |id|] == '&' || OccursAt(s, pat, start + |id|))
  }

  /**
   * The fallback finds an id exactly when `teacher_id=` occurs; the id follows
   * the first occurrence, contains neither `&` nor `teacher_id=`, and extends
   * as far as it can.
   */
  lemma FallbackIdSpec(search: string)
    ensures FallbackId(search).None? <==> forall i :: !OccursAt(search, IdKey, i)
    ensures FallbackId(search).Some? ==>
              var id := FallbackId(search).value;
              && '&' !in id
              && (forall k :: !OccursAt(id, IdKey, k))
              && StopsAt(search, IndexOf(search, IdKey).value + |IdKey|, id, IdKey)
  {
    if IndexOf(search, IdKey).Some? {
      var i := IndexOf(search, IdKey).value;
      var id := IdOf(search[i + |IdKey|..]);
      assert FallbackId(search) == Some(id);
      IdOfClean(search[i + |IdKey|..]);
      IdOfStops(search[i + |IdKey|..]);
      FollowsIn(search, i + |IdKey|, id, IdKey);
    }
  }

  /** An occurrence in a suffix is an occurrence in the whole string, shifted. */
  lemma OccursShift(s: string, start: nat, n: nat, pat: string)
    requires start <= |s| && OccursAt(s[start..], pat, n)
    ensures OccursAt(s, pat, start + n)
  {
    assert s[start..][n..n + |pat|] == s[start + n..start + n + |pat|];
  }

  /** A prefix of a suffix, stopped by the end, a `&` or pat, sits in the whole string and is stopped there too. */
  lemma FollowsIn(s: string, start: nat, id: string, pat: string)
    requires start <= |s| && id <= s[start..]
    requires |id| == |s[start..]| || s[start..][|id|] == '&' || OccursAt(s[start..], pat, |id|)
    ensures StopsAt(s, start, id, pat)
  {
    assert s[start..start + |id|] == s[start..][..|id|];
    if OccursAt(s[start..], pat, |id|) {
      OccursShift(s, start, |id|, pat);
    }
  }

  /**
   * `getTeacherIdFromUrl`: the standard query parameter when it is non-empty;
   * otherwise the fallback when `teacher_id=` occurs in the query string, and
   * the standard result (null or empty) when it does not.
   */
  function TeacherIdFromUrl(search: string, standard: Option<string>): (r: Option<string>)
    ensures standard.Some? && standard.value != "" ==> r == standard
    ensures r != standard ==> r.Some? && '&' !in r.value && forall k :: !OccursAt(r.value, IdKey, k)
    ensures r == None || r == Some("") ==> forall i :: !OccursAt(search, IdKey, i) || FallbackId(search) == Some("")
  {
    FallbackIdSpec(search);
    if (standard == None || standard == Some("")) && FallbackId(search).Some? then FallbackId(search)
    else standard
  }
}
