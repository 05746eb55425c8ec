/**
 * A candidate timetable (backend/app/algorithm/chromosome.py): one gene per
 * student group, and a fitness in [0, 1] computed from a penalty count over
 * the weekly grid. Position i of every gene is the same hour of the week,
 * so two groups whose lessons at position i have the same teacher are a
 * double booking.
 */
module Chromosome {
  import opened Common
  import opened InputData
  import opened Pool
  import opened Gene

  /** Penalty points for a lesson whose teacher is unavailable at that hour. */
  const UnavailablePenalty := 1000
  /** Penalty points for each further lesson of an already busy teacher at the same hour. */
  const RepeatPenalty := 500
  /** The normaliser's weights, which differ from the penalties above. */
  const ConflictWeight := 250
  const UnavailableWeight := 700

  /**
   * What a chromosome is built from: the lesson pool, the teachers, the
   * number of student groups and the shape of the week.
   */
  datatype Config = Config(
    pool: seq<Option<Lesson>>,
    teachers: seq<Teacher>,
    groups: nat,
    days: nat,
    hours: nat,
    lunch: int)

  /** A chromosome: gene g is group g's week; `fitness` caches `get_fitness()`. */
  datatype Chromosome = Chromosome(genes: seq<Gene>, fitness: real)

  function Slots(cfg: Config): nat {
    cfg.days * cfg.hours
  }

  /** Every gene has an entry at each of the first n positions. */
  predicate Covers(genes: seq<Gene>, n: nat) {
    forall j :: 0 <= j < |genes| ==> |genes[j].slotno| >= n
  }

  /**
   * The teacher of the lesson at pool index s, when the fitness loop counts
   * it: s indexes the pool, the entry is a lesson and its teacher index is
   * a known teacher.
   */
  function CountedTeacher(cfg: Config, s: int): (r: Option<nat>)
    ensures r.Some? ==> 0 <= s < |cfg.pool| && cfg.pool[s].Some? && r.value == cfg.pool[s].value.teacherId
    ensures r.Some? ==> r.value < |cfg.teachers|
  {
    if s < 0 || s >= |cfg.pool| then None
    else match cfg.pool[s]
      case None => None
      case Some(lesson) => if lesson.teacherId >= |cfg.teachers| then None else Some(lesson.teacherId)
  }

  /**
   * The inner fitness loop at position i over groups j onwards, with the
   * teachers already seen at this position.
   */
  function ScanPosition(cfg: Config, genes: seq<Gene>, i: nat, j: nat, seen: set<nat>): nat
    requires Covers(genes, i + 1)
    decreases |genes| - j
  {
    if j >= |genes| then 0
    else match CountedTeacher(cfg, genes[j].slotno[i])
      case None => ScanPosition(cfg, genes, i, j + 1, seen)
      case Some(t) =>
        (if i in cfg.teachers[t].unavailable then UnavailablePenalty else 0)
        + (if t in seen then RepeatPenalty else 0)
        + ScanPosition(cfg, genes, i, j + 1, seen + {t})
  }

  /** The penalty points of position i. */
  function PositionPoints(cfg: Config, genes: seq<Gene>, i: nat): nat
    requires Covers(genes, i + 1)
  {
    ScanPosition(cfg, genes, i, 0, {})
  }

  /** `point` after the outer loop has visited positions 0 .. n-1. */
  function Points(cfg: Config, genes: seq<Gene>, n: nat): nat
    requires Covers(genes, n)
  {
    if n == 0 then 0 else Points(cfg, genes, n - 1) + PositionPoints(cfg, genes, n - 1)
  }

  // Reference definitions of what the loop counts.

  /** The counted teachers at position i, groups j onwards, in group order. */
  function Ids(cfg: Config, genes: seq<Gene>, i: nat, j: nat): seq<nat>
    requires Covers(genes, i + 1)
    decreases |genes| - j
  {
    if j >= |genes| then []
    else match CountedTeacher(cfg, genes[j].slotno[i])
      case None => Ids(cfg, genes, i, j + 1)
      case Some(t) => [t] + Ids(cfg, genes, i, j + 1)
  }

  /** The number of groups from j onwards whose lesson at position i has a teacher unavailable then. */
  function UnavailableHits(cfg: Config, genes: seq<Gene>, i: nat, j: nat): nat
    requires Covers(genes, i + 1)
    decreases |genes| - j
  {
    if j >= |genes| then 0
    else match CountedTeacher(cfg, genes[j].slotno[i])
      case None => UnavailableHits(cfg, genes, i, j + 1)
      case Some(t) => (if i in cfg.teachers[t].unavailable then 1 else 0) + UnavailableHits(cfg, genes, i, j + 1)
  }

  /** Position i has no penalty: no unavailable teacher and no teacher twice. */
  predicate Clean(cfg: Config, genes: seq<Gene>, i: nat)
    requires Covers(genes, i + 1)
  {
    UnavailableHits(cfg, genes, i, 0) == 0 && NoDups(Ids(cfg, genes, i, 0))
  }

  lemma {:induction false} ScanCounts(cfg: Config, genes: seq<Gene>, i: nat, j: nat, seen: set<nat>)
    requires Covers(genes, i + 1)
    ensures var ids := Ids(cfg, genes, i, j);
      ScanPosition(cfg, genes, i, j, seen)
        == UnavailablePenalty * UnavailableHits(cfg, genes, i, j)
           + RepeatPenalty * (|ids| + |seen| - |seen + Elems(ids)|)
    decreases |genes| - j
  {
    if j >= |genes| {
      SeenNothing(seen);
    } else {
      var rest := Ids(cfg, genes, i, j + 1);
      match CountedTeacher(cfg, genes[j].slotno[i])
      case None =>
        ScanCounts(cfg, genes, i, j + 1, seen);
      case Some(t) =>
        ScanCounts(cfg, genes, i, j + 1, seen + {t});
        var hit := if i in cfg.teachers[t].unavailable then 1 else 0;
        var repeat := if t in seen then 1 else 0;
        var later := |rest| + |seen + {t}| - |(seen + {t}) + Elems(rest)|;
        SeenOneMore(seen, t, rest);
        assert Ids(cfg, genes, i, j) == [t] + rest;
        Distribute(UnavailablePenalty, hit, UnavailableHits(cfg, genes, i, j + 1));
        Distribute(RepeatPenalty, repeat, later);
    }
  }

  /** With no more teachers, the scan finds no repeat. */
  lemma SeenNothing(seen: set<nat>)
    ensures |seen + Elems([])| == |seen|
  {
    assert seen + Elems([]) == seen;
  }

  /** Scanning teacher t and then the rest finds t repeated exactly when it was seen, and then the rest's repeats. */
  lemma SeenOneMore(seen: set<nat>, t: nat, rest: seq<nat>)
    ensures |[t] + rest| + |seen| - |seen + Elems([t] + rest)|
      == (if t in seen then 1 else 0) + (|rest| + |seen + {t}| - |(seen + {t}) + Elems(rest)|)
  {
    assert Elems([t] + rest) == {t} + Elems(rest);
    assert seen + Elems([t] + rest) == (seen + {t}) + Elems(rest);
    if t in seen {
      assert seen + {t} == seen;
    }
  }

  lemma {:induction false} DistinctCount<T>(s: seq<T>)
    ensures |Elems(s)| <= |s|
    ensures |Elems(s)| == |s| ==> NoDups(s)
    decreases |s|
  {
    if |s| > 0 {
      var r := s[1..];
      DistinctCount(r);
      assert s == [s[0]] + r;
      assert Elems(s) == {s[0]} + Elems(r);
      if s[0] !in r {
        assert |Elems(s)| == |Elems(r)| + 1;
        if |Elems(s)| == |s| {
          forall i, j | 0 <= i < j < |s|
            ensures s[i] != s[j]
          {
            if i == 0 {
              assert s[j] == r[j - 1];
            } else {
              assert s[i] == r[i - 1] && s[j] == r[j - 1];
            }
          }
        }
      } else {
        assert Elems(s) == Elems(r);
      }
    }
  }

  /**
   * The penalty at one position is 1000 per lesson whose teacher is
   * unavailable then, plus 500 per lesson beyond the first for each
   * teacher: the counted lessons minus the distinct teachers.
   */
  lemma PositionPenalty(cfg: Config, genes: seq<Gene>, i: nat)
    requires Covers(genes, i + 1)
    ensures var ids := Ids(cfg, genes, i, 0);
      |Elems(ids)| <= |ids| &&
      PositionPoints(cfg, genes, i)
        == UnavailablePenalty * UnavailableHits(cfg, genes, i, 0)
           + RepeatPenalty * (|ids| - |Elems(ids)|)
  {
    var ids := Ids(cfg, genes, i, 0);
    ScanCounts(cfg, genes, i, 0, {});
    DistinctCount(ids);
    assert {} + Elems(ids) == Elems(ids);
  }

  /** A position scores nothing exactly when it is clean. */
  lemma PositionPointsZero(cfg: Config, genes: seq<Gene>, i: nat)
    requires Covers(genes, i + 1)
    ensures PositionPoints(cfg, genes, i) == 0 <==> Clean(cfg, genes, i)
  {
    var ids := Ids(cfg, genes, i, 0);
    PositionPenalty(cfg, genes, i);
    DistinctCount(ids);
    if NoDups(ids) {
      NoDupsSetSize(ids);
    }
  }

  /** No penalty at all exactly when every position is clean. */
  lemma {:induction false} PointsZero(cfg: Config, genes: seq<Gene>, n: nat)
    requires Covers(genes, n)
    ensures Points(cfg, genes, n) == 0 <==> forall i :: 0 <= i < n ==> Clean(cfg, genes, i)
  {
    if n > 0 {
      PointsZero(cfg, genes, n - 1);
      PositionPointsZero(cfg, genes, n - 1);
    }
  }

  /**
   * Lessons outside the pool, free periods and unknown teacher indices
   * count nothing: a group whose entry at position i is one of those can
   * be dropped without changing that position's penalty.
   */
  lemma {:induction false} UncountedIgnored(cfg: Config, genes: seq<Gene>, i: nat, j: nat, seen: set<nat>)
    requires Covers(genes, i + 1)
    requires j < |genes| && CountedTeacher(cfg, genes[j].slotno[i]).None?
    ensures ScanPosition(cfg, genes, i, 0, seen) == ScanPosition(cfg, genes[..j] + genes[j + 1..], i, 0, seen)
    decreases j
  {
    var rest := genes[..j] + genes[j + 1..];
    if j > 0 {
      assert genes[1..][..j - 1] + genes[1..][j..] == rest[1..];
      assert rest[0] == genes[0];
      var seen' := match CountedTeacher(cfg, genes[0].slotno[i]) case None => seen case Some(t) => seen + {t};
      UncountedIgnored(cfg, genes[1..], i, j - 1, seen');
      ShiftScan(cfg, genes, i, seen');
      ShiftScan(cfg, rest, i, seen');
    } else {
      assert rest == genes[1..];
      ShiftScan(cfg, genes, i, seen);
    }
  }

  /** Scanning from group 1 is scanning the sequence without its first gene. */
  lemma {:induction false} ShiftScanFrom(cfg: Config, genes: seq<Gene>, i: nat, j: nat, seen: set<nat>)
    requires Covers(genes, i + 1) && 1 <= j <= |genes|
    ensures ScanPosition(cfg, genes, i, j, seen) == ScanPosition(cfg, genes[1..], i, j - 1, seen)
    decreases |genes| - j
  {
    if j < |genes| {
      assert genes[1..][j - 1] == genes[j];
      match CountedTeacher(cfg, genes[j].slotno[i])
      case None => ShiftScanFrom(cfg, genes, i, j + 1, seen);
      case Some(t) => ShiftScanFrom(cfg, genes, i, j + 1, seen + {t});
    }
  }

  lemma ShiftScan(cfg: Config, genes: seq<Gene>, i: nat, seen: set<nat>)
    requires Covers(genes, i + 1) && |genes| >= 1
    ensures ScanPosition(cfg, genes, i, 1, seen) == ScanPosition(cfg, genes[1..], i, 0, seen)
  {
    ShiftScanFrom(cfg, genes, i, 1, seen);
  }

  /** `max(1.0, worst_conflict_penalty + worst_unavail_penalty)`. */
  function Normaliser(groups: nat, teachers: nat, T: nat): (d: real)
    ensures d >= 1.0
  {
    var worstConflict := (groups - 1) * T * ConflictWeight;
    var worstUnavailable := teachers * T * UnavailableWeight;
    if worstConflict + worstUnavailable <= 1 then 1.0 else (worstConflict + worstUnavailable) as real
  }

  /** `1 - point / max_conflicts`, clamped at 0. */
  function FitnessOf(point: nat, groups: nat, teachers: nat, T: nat): (f: real)
    ensures 0.0 <= f <= 1.0
    ensures f == 1.0 <==> point == 0
  {
    var raw := 1.0 - point as real / Normaliser(groups, teachers, T);
    if raw < 0.0 then 0.0 else raw
  }

  /** More penalty points never give a higher fitness. */
  lemma FitnessAntitone(p: nat, q: nat, groups: nat, teachers: nat, T: nat)
    requires p <= q
    ensures FitnessOf(q, groups, teachers, T) <= FitnessOf(p, groups, teachers, T)
  {
    var d := Normaliser(groups, teachers, T);
    assert p as real / d <= q as real / d;
  }

  /** `get_fitness()`: the penalty over the week, normalised. */
  function Fitness(cfg: Config, genes: seq<Gene>): (f: real)
    requires Covers(genes, Slots(cfg))
    ensures 0.0 <= f <= 1.0
  {
    FitnessOf(Points(cfg, genes, Slots(cfg)), |genes|, |cfg.teachers|, Slots(cfg))
  }

  /** A fitness of exactly 1 means a clash-free week: no unavailable teacher and no double booking at any hour. */
  lemma FitnessOneIffClean(cfg: Config, genes: seq<Gene>)
    requires Covers(genes, Slots(cfg))
    ensures Fitness(cfg, genes) == 1.0 <==> forall i :: 0 <= i < Slots(cfg) ==> Clean(cfg, genes, i)
  {
    PointsZero(cfg, genes, Slots(cfg));
  }

  /** The chromosome with these genes and its fitness recomputed, as after `get_fitness()`. */
  function Evaluate(cfg: Config, genes: seq<Gene>): (c: Chromosome)
    requires Covers(genes, Slots(cfg))
    ensures c.genes == genes && 0.0 <= c.fitness <= 1.0
  {
    Chromosome(genes, Fitness(cfg, genes))
  }

  /** The fitness cache is up to date. */
  predicate Evaluated(cfg: Config, c: Chromosome) {
    Covers(c.genes, Slots(cfg)) && c.fitness == Fitness(cfg, c.genes)
  }

  /** Gene g is a permutation of group g's pool range. */
  ghost predicate GeneWellFormed(cfg: Config, genes: seq<Gene>, g: int) {
    0 <= g < |genes| && multiset(genes[g].slotno) == multiset(GroupSlots(g, Slots(cfg)))
  }

  /** Each gene g is a permutation of group g's pool range. */
  ghost predicate WellFormed(cfg: Config, genes: seq<Gene>) {
    |genes| == cfg.groups &&
    forall g :: 0 <= g < |genes| ==> GeneWellFormed(cfg, genes, g)
  }

  lemma WellFormedCovers(cfg: Config, genes: seq<Gene>)
    requires WellFormed(cfg, genes)
    ensures Covers(genes, Slots(cfg))
  {
    forall j | 0 <= j < |genes|
      ensures |genes[j].slotno| >= Slots(cfg)
    {
      assert GeneWellFormed(cfg, genes, j);
      assert |multiset(genes[j].slotno)| == |multiset(GroupSlots(j, Slots(cfg)))|;
    }
  }

  /** Genes taken over unchanged from well-formed parents, at the same index, keep them well formed. */
  lemma WellFormedFromParents(cfg: Config, a: seq<Gene>, b: seq<Gene>, c: seq<Gene>, k: int)
    requires WellFormed(cfg, a) && WellFormed(cfg, b) && |c| == cfg.groups
    requires forall j :: 0 <= j < |c| && j != k ==> c[j] == a[j] || c[j] == b[j]
    requires 0 <= k < |c| ==> GeneWellFormed(cfg, c, k)
    ensures WellFormed(cfg, c)
  {
    forall j | 0 <= j < |c|
      ensures GeneWellFormed(cfg, c, j)
    {
      if j != k {
        if c[j] == a[j] {
          assert GeneWellFormed(cfg, a, j);
        } else {
          assert GeneWellFormed(cfg, b, j);
        }
      }
    }
  }

  /** The genes of a new chromosome: gene g built for group g from its own draws `draws(g)`. */
  function NewGenes(cfg: Config, draws: nat -> GeneDraws): (r: seq<Gene>)
    ensures |r| == cfg.groups
    ensures forall g :: 0 <= g < |r| ==> r[g] == NewGene(cfg.pool, g, cfg.days, cfg.hours, cfg.lunch, draws(g))
    ensures Covers(r, Slots(cfg))
  {
    seq(cfg.groups, g requires 0 <= g < cfg.groups => NewGene(cfg.pool, g, cfg.days, cfg.hours, cfg.lunch, draws(g)))
  }

  /** `Chromosome(config)`: one fresh gene per group, and the fitness cached. */
  function NewChromosome(cfg: Config, draws: nat -> GeneDraws): (c: Chromosome)
    ensures |c.genes| == cfg.groups && Evaluated(cfg, c)
  {
    Evaluate(cfg, NewGenes(cfg, draws))
  }

  /** Every gene of a new chromosome is a permutation of its group's pool range. */
  lemma NewChromosomeWellFormed(cfg: Config, draws: nat -> GeneDraws)
    ensures WellFormed(cfg, NewChromosome(cfg, draws).genes)
  {
    var genes := NewChromosome(cfg, draws).genes;
    forall g | 0 <= g < |genes|
      ensures GeneWellFormed(cfg, genes, g)
    {
      GeneIsPermutation(cfg.pool, g, cfg.days, cfg.hours, cfg.lunch, draws(g));
    }
  }

  /** `a < b` for chromosomes: a has the higher fitness. */
  predicate Less(a: Chromosome, b: Chromosome) {
    a.fitness > b.fitness
  }

  /**
   * The clamp is live: two groups taught by the same teacher at the only
   * hour of a one-hour week, at which the teacher is unavailable, score
   * 2500 points against a normaliser of 950, and the fitness is clamped to 0.
   */
  lemma ClampIsLive()
    ensures var lesson := Some(Lesson(0, "a", 0, "maths"));
      var cfg := Config([lesson, lesson], [Teacher(0, "t", "maths", 2, [0])], 2, 1, 1, 4);
      var genes := [Gene([0]), Gene([1])];
      Points(cfg, genes, 1) == 2500 && Normaliser(2, 1, 1) == 950.0 && Fitness(cfg, genes) == 0.0
  {
    var lesson := Some(Lesson(0, "a", 0, "maths"));
    var cfg := Config([lesson, lesson], [Teacher(0, "t", "maths", 2, [0])], 2, 1, 1, 4);
    var genes := [Gene([0]), Gene([1])];
    assert CountedTeacher(cfg, 0) == Some(0) && CountedTeacher(cfg, 1) == Some(0);
    assert ScanPosition(cfg, genes, 0, 2, {0}) == 0;
    assert ScanPosition(cfg, genes, 0, 1, {0}) == 1500;
    assert ScanPosition(cfg, genes, 0, 0, {}) == 2500;
  }

  // print_time_table: each group's subject -> positions map.

  /** The subject taught at position p of the gene, when it is a lesson with a non-empty subject. */
  function SubjectAt(cfg: Config, gene: Gene, p: nat): Option<string>
    requires p < |gene.slotno| && 0 <= gene.slotno[p] < |cfg.pool|
  {
    match cfg.pool[gene.slotno[p]]
    case None => None
    case Some(lesson) => if lesson.subject == "" then None else Some(lesson.subject)
  }

  /** The positions 0 .. n-1 of the gene hold pool indices. */
  predicate InPool(cfg: Config, gene: Gene, n: nat) {
    n <= |gene.slotno| && forall p :: 0 <= p < n ==> 0 <= gene.slotno[p] < |cfg.pool|
  }

  /** `subject_positions` after visiting positions 0 .. n-1. */
  function SubjectPositions(cfg: Config, gene: Gene, n: nat): (m: map<string, seq<nat>>)
    requires InPool(cfg, gene, n)
  {
    if n == 0 then map[]
    else
      var m := SubjectPositions(cfg, gene, n - 1);
      match SubjectAt(cfg, gene, n - 1)
      case None => m
      case Some(s) => m[s := (if s in m then m[s] else []) + [n - 1]]
  }

  /**
   * The map lists every position whose lesson has a subject exactly once,
   * under that subject and in ascending order, and nothing else.
   */
  ghost predicate ListsPositions(cfg: Config, gene: Gene, n: nat, m: map<string, seq<nat>>)
    requires InPool(cfg, gene, n)
  {
    (forall s :: s in m ==> |m[s]| > 0 && StrictlyIncreasing(m[s])) &&
    (forall s, k :: s in m && 0 <= k < |m[s]| ==> m[s][k] < n && SubjectAt(cfg, gene, m[s][k]) == Some(s)) &&
    (forall p :: 0 <= p < n && SubjectAt(cfg, gene, p).Some? ==>
      var s := SubjectAt(cfg, gene, p).value; s in m && p in m[s])
  }

  lemma {:induction false} SubjectPositionsListed(cfg: Config, gene: Gene, n: nat)
    requires InPool(cfg, gene, n)
    ensures ListsPositions(cfg, gene, n, SubjectPositions(cfg, gene, n))
  {
    if n > 0 {
      SubjectPositionsListed(cfg, gene, n - 1);
      var m := SubjectPositions(cfg, gene, n - 1);
      match SubjectAt(cfg, gene, n - 1)
      case None =>
      case Some(s) =>
        var old_ := if s in m then m[s] else [];
        var m' := m[s := old_ + [n - 1]];
        assert forall k :: 0 <= k < |old_| ==> old_[k] < n - 1;
        assert StrictlyIncreasing(old_ + [n - 1]);
    }
  }

  /** `timetable_dict`: group name -> its subject map; a later group with the same name replaces an earlier one. */
  function TimetableDict(cfg: Config, names: seq<string>, genes: seq<Gene>, T: nat): (d: map<string, map<string, seq<nat>>>)
    requires |names| == |genes|
    requires forall g :: 0 <= g < |genes| ==> InPool(cfg, genes[g], T)
    ensures forall x :: x in d <==> x in names
  {
    if |genes| == 0 then map[]
    else
      var k := |genes| - 1;
      TimetableDict(cfg, names[..k], genes[..k], T)[names[k] := SubjectPositions(cfg, genes[k], T)]
  }

  /** The entry under a group's name is that group's map unless a later group has the same name. */
  lemma {:induction false} TimetableDictEntry(cfg: Config, names: seq<string>, genes: seq<Gene>, T: nat, g: nat)
    requires |names| == |genes|
    requires forall g :: 0 <= g < |genes| ==> InPool(cfg, genes[g], T)
    requires g < |genes| && forall h :: g < h < |genes| ==> names[h] != names[g]
    ensures TimetableDict(cfg, names, genes, T)[names[g]] == SubjectPositions(cfg, genes[g], T)
    decreases |genes|
  {
    var k := |genes| - 1;
    if g < k {
      TimetableDictEntry(cfg, names[..k], genes[..k], T, g);
    }
  }

  /** The group name `print_time_table` shows: the group of the first lesson in the gene, else "Unknown Group". */
  function GroupName(cfg: Config, gene: Gene, p: nat, T: nat): (name: string)
    requires InPool(cfg, gene, T)
    decreases T - p
  {
    if p >= T then "Unknown Group"
    else match cfg.pool[gene.slotno[p]]
      case Some(lesson) => lesson.groupName
      case None => GroupName(cfg, gene, p + 1, T)
  }

  /** The name is the group of a lesson in the gene, or the placeholder when it has none. */
  lemma {:induction false} GroupNameFound(cfg: Config, gene: Gene, p: nat, T: nat)
    requires InPool(cfg, gene, T)
    ensures var name := GroupName(cfg, gene, p, T);
      (name == "Unknown Group" && forall q :: p <= q < T ==> cfg.pool[gene.slotno[q]].None?) ||
      (exists q :: p <= q < T && cfg.pool[gene.slotno[q]].Some? && cfg.pool[gene.slotno[q]].value.groupName == name)
    decreases T - p
  {
    if p < T && cfg.pool[gene.slotno[p]].None? {
      GroupNameFound(cfg, gene, p + 1, T);
    }
  }

  /** The subject lists are pairwise disjoint: a position is listed under one subject only. */
  lemma SubjectListsDisjoint(cfg: Config, gene: Gene, n: nat, s1: string, s2: string, k1: nat, k2: nat)
    requires InPool(cfg, gene, n)
    requires var m := SubjectPositions(cfg, gene, n);
      s1 in m && s2 in m && k1 < |m[s1]| && k2 < |m[s2]| && m[s1][k1] == m[s2][k2]
    ensures s1 == s2
  {
    SubjectPositionsListed(cfg, gene, n);
  }
}
