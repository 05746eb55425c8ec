# timetable: a verified model of the scheduling core

This project is a Dafny model of the scheduling core of the *timetable* web application. The application has a Flask backend and two React/Next.js front ends. Together they build a weekly college timetable with a genetic algorithm, and they also plan exam invigilation. The model covers the following parts:

- **Lesson pool** (`Pool`). `TimeTable` expands each student group's (subject, hours, teacher) list into a flat pool of `nostgrp · days · hours` entries. Each entry is a lesson or a free period, and each group owns one contiguous range of the pool.
- **Gene** (`Gene`). `Gene.__init__` maps the positions of one group's week to that group's pool indices:
  - subjects ending in `_lab` are placed as blocks;
  - a block goes first to a start that `find_block_position` accepts, then to a run of consecutive free positions, and at worst to random positions;
  - the remaining lessons fill the free positions.

  Every random draw is a parameter. The headline theorem is `Gene.GeneIsPermutation`: whatever the draws, the gene is a permutation of the group's pool range.
- **Chromosome** (`Chromosome`):
  - the penalty count, 1000 per unavailable teacher and 500 per double booking;
  - its normalisation to a fitness in [0, 1], with `real` in place of floats;
  - the `__lt__` order;
  - the subject → positions dictionary that `print_time_table` hands to storage.
- **Genetic algorithm** (`Scheduler`): elitism, roulette selection, single-gene crossover, the greedy re-draw mutation, the rotation and swap mutations, and the generation loop. Two behaviours of the code are modelled exactly as written:
  - `sort(reverse=True)` together with the inverted `__lt__` sorts the population by *ascending* fitness, so the "elite" prefix is the least fit tenth;
  - the elite loop leaves its counter at `elite_size - 1`, so every completed generation holds `population_size + 1` chromosomes.
- **Input format** (`PyText`, `InputData`, `Transform`):
  - the Python string primitives the parser relies on, with `int()` reading every Unicode decimal digit and raising on more than 4300 digits, as Python 3.12 does;
  - `InputData._take_input` over a list of lines, including the rule that a one-hour `_lab` subject gets two hours;
  - the least-loaded teacher assignment and the unavailability merge;
  - the serialiser in `transform_input`, with a round-trip theorem between the serialiser and the parser.
- **Invigilator rota** (`Dates`, `Invigilator`):
  - `calculate_slot_number` on proleptic Gregorian dates;
  - `is_teacher_available` over an abstract store;
  - the weekday-only round-robin assignment of `assign_invigilators_simple`, with its status summary.

  The slot arithmetic counts hours from 09:00 with no lunch gap. So an exam at 14:00 gets teaching hour 5, while the availability grid shows column 4 as "2-3".
- **Availability bookkeeping** (`AvailabilityUpdate`):
  - the teacher → subjects mapping;
  - the first-match teacher lookups;
  - the set-union update of a teacher's unavailable slots;
  - the status report;
  - the update after a timetable is generated.

  The database collections are sequences of documents passed in as values.
- **Pages** (`SlotGrid`, `JsText`, `AvailabilityPage`, `ResponsePage`, `ViewTimetable`, `GiantTimetable`). The pages share the slot numbering `day · 7 + hour` over a 5 × 7 grid. The model covers:
  - the availability grid's toggle and flattening, and the `teacher_id` fallback parser;
  - the responses page's decoding, Accept handler and generation payload;
  - the view pages' inversion of a stored `ttable`, and their PDF lookup;
  - the combined page's multi-class merge and selection handlers.

  `ViewTimetable.PrintedTableDisjoint` connects the stored tables back to `print_time_table`.

Random choices (`shuffle`, `choice`, `randrange`, `random`, `uniform`) are sequences of natural-number draws passed as parameters, and the properties are proved for every draw. Python's integers and JavaScript's numbers are Dafny's unbounded `int`, and fitness values are `real`.

## Model

| member | source | states |
|---|---|---|
| Common.Range | backend/app/algorithm/gene.py:18 | `range(lo, hi)` lists lo, lo+1, …, hi−1 |
| Common.Draw | backend/app/algorithm/gene.py:90-94 | k successive random picks without replacement give k elements of the list, distinct when the list is, and all of them when k is its length |
| Common.Shuffle | backend/app/algorithm/gene.py:46-47 | `random.shuffle` gives a permutation of the list, whatever the draws |
| Common.Choice | backend/app/algorithm/scheduler_main.py:154 | `random.choice` gives an element of the list |
| Common.Dedup | backend/app/services/availability_update_service.py:51-52 | `list(set(...))` keeps each element once and loses none |
| Common.DedupOfDistinct | backend/app/services/availability_update_service.py:52 | a list without repeats comes back unchanged |
| Pool.BuildPool | backend/app/algorithm/time_table.py:21-23 | the pool has exactly `nostgrp · days · hours` entries |
| Pool.GroupLoopPending | backend/app/algorithm/time_table.py:32-51 | the inner loop, at any point, emits what is still pending — the rest of the current subject, then the later subjects — cut or padded with free periods to the iterations left |
| Pool.GroupEntriesLayout | backend/app/algorithm/time_table.py:29-51 | a group's week holds its subjects in declared order, each `max(1, hours)` times in a row (a 0-hour subject still gets one entry), followed by free periods, cut at the week's length |
| Pool.ExpandedLength | backend/app/algorithm/time_table.py:46-51 | the lessons a group asks for number the sum over its subjects of `max(1, hours)` |
| Pool.PoolAt | backend/app/algorithm/time_table.py:25-35 | entry j of group g's week sits at index g·(days·hours) + j of the pool, because `k` advances once per inner iteration |
| Pool.OverfullGroupIsCut | backend/app/algorithm/time_table.py:32-33 | a group whose subjects need at least a week of entries gets a lesson in every entry of its week and no free period; later lessons are dropped |
| Gene.KeyAt | backend/app/algorithm/gene.py:21-33 | an offset's key is its lesson's subject, never the empty string; free periods, indices past the pool and empty subjects share the key None |
| Gene.BucketsGrouped | backend/app/algorithm/gene.py:20-35 | after the loop, `subject_to_offsets` has one entry per distinct key, and each entry lists exactly the offsets with that key, ascending |
| Gene.BucketsOffsets | backend/app/algorithm/gene.py:20-35 | every offset 0 .. T-1 of the week lands in exactly one entry |
| Gene.BlocksAreLabBuckets | backend/app/algorithm/gene.py:40-42 | each block is the offset list of one entry whose subject ends in `_lab` |
| Gene.BlocksAndSingles | backend/app/algorithm/gene.py:37-44 | blocks and singles together hold the entries' offsets, none lost and none repeated |
| Gene.ConcatDraw | backend/app/algorithm/gene.py:46 | shuffling the blocks keeps the multiset of the offsets they hold |
| Gene.FreeList | backend/app/algorithm/gene.py:84 | `sorted(free_positions)` is strictly ascending and lists exactly the positions still free |
| Gene.FindBlockPosition | backend/app/algorithm/gene.py:52-77 | a returned start passes the day test and has m free positions from it; for m ≥ 1, None is returned exactly when no start in the week does |
| Gene.FirstFitComplete | backend/app/algorithm/gene.py:53-77 | whatever the shuffle of the candidates, the search fails only when no position of the week fits |
| Gene.FitsDayRun | backend/app/algorithm/gene.py:57-68 | a start that passes the test puts the block on consecutive hours of one day, ending before the day's last hour and not running from before lunch to after it |
| Gene.ScanFrom | backend/app/algorithm/gene.py:84-88 | the scan returns the first entry of a window of m sorted free positions whose ends are m − 1 apart, and fails exactly when there is no such window |
| Gene.RunIsContiguous | backend/app/algorithm/gene.py:86 | in the ascending free list, a window whose ends are m − 1 apart holds m consecutive integers |
| Gene.FreeRunIsWindow | backend/app/algorithm/gene.py:84-88 | whenever m consecutive positions are free, the scan finds a window |
| Gene.ScannedFresh | backend/app/algorithm/gene.py:84-102 | the scanned run's positions are distinct, inside the week and free |
| Gene.ScatteredFresh | backend/app/algorithm/gene.py:89-96 | the m positions drawn one at a time with `random.choice` and removed are distinct and free |
| Gene.StrategyFresh | backend/app/algorithm/gene.py:79-103 | whichever of the three ways a block is placed, it gets m distinct free positions |
| Gene.StrategyFits | backend/app/algorithm/gene.py:79-99 | a block is fitted only where `find_block_position` accepts it, and the fallbacks are used only when no start in the week passes the test |
| Gene.ScatteredOnlyWithoutRun | backend/app/algorithm/gene.py:82-97 | a block is scattered at random exactly when no m consecutive positions are free |
| Gene.ScanCrossesDays | backend/app/algorithm/gene.py:84-102 | the scan fallback can put a lab block across a day boundary: with two hours a day and only positions 1 and 2 free, a two-hour block goes to the last hour of day 0 and the first of day 1 |
| Gene.WriteInv | backend/app/algorithm/gene.py:95-103 | writing pending offsets to fresh positions keeps the placement invariant: placed offsets distinct, in the week and no longer pending, and as many free positions as pending offsets |
| Gene.WriteAt | backend/app/algorithm/gene.py:100-103 | each written position holds its offset and every other position is untouched |
| Gene.PlaceBlocksInv | backend/app/algorithm/gene.py:79-103 | the block loop places exactly the blocks' offsets and leaves the singles pending |
| Gene.PlaceBlocksExtends | backend/app/algorithm/gene.py:79-103 | no later block moves an offset an earlier block placed |
| Gene.PlaceBlocksPlaced | backend/app/algorithm/gene.py:95-103 | every block ends up at its strategy's positions, offset k of the block at the k-th position |
| Gene.PlaceBlocksFitted | backend/app/algorithm/gene.py:79-103 | every block placed by `find_block_position` starts where its test passes |
| Gene.SetupInv | backend/app/algorithm/gene.py:37-50 | the block loop starts with every offset of the week pending and every position free |
| Gene.FillSinglesInv | backend/app/algorithm/gene.py:105-108 | with as many free positions as singles, the `zip` fills every position and leaves nothing pending |
| Gene.FillLeftoversFull | backend/app/algorithm/gene.py:110-116 | once every position is taken the leftover step changes nothing |
| Gene.ConstructFull | backend/app/algorithm/gene.py:37-116 | at the end every position of the week holds a distinct offset of the week |
| Gene.FullWeekPermutation | backend/app/algorithm/gene.py:118-122 | a full week of distinct offsets numbers its slots base .. base+T−1, each once |
| Gene.GeneIsPermutation | backend/app/algorithm/gene.py:11-122 | for every outcome of the random draws, `slotno` of group g is a permutation of the pool indices g·T .. g·T+T−1 |
| Gene.BlockInGene | backend/app/algorithm/gene.py:79-122 | block j's k-th offset is taught at its strategy's k-th slot, and a block placed by `find_block_position` fills consecutive hours of one day without crossing lunch |
| Gene.BlockIsLabSubject | backend/app/algorithm/gene.py:20-46 | each block of the gene is exactly the set of offsets of the week whose lesson is one lab subject |
| Chromosome.CountedTeacher | backend/app/algorithm/chromosome.py:40-56 | a lesson is counted only when its index is inside the pool, the entry is a lesson, and its teacher index names a known teacher |
| Chromosome.ScanCounts | backend/app/algorithm/chromosome.py:36-66 | the inner loop scores 1000 per counted lesson whose teacher is unavailable at that hour, plus 500 per lesson whose teacher was already seen at that hour |
| Chromosome.PositionPenalty | backend/app/algorithm/chromosome.py:35-66 | an hour's penalty is 1000 per unavailable teacher plus 500 for each lesson beyond a teacher's first at that hour |
| Chromosome.PositionPointsZero | backend/app/algorithm/chromosome.py:59-66 | an hour scores nothing exactly when no teacher there is unavailable and no teacher appears twice |
| Chromosome.PointsZero | backend/app/algorithm/chromosome.py:32-66 | the total penalty is 0 exactly when every hour of the week is clean |
| Chromosome.UncountedIgnored | backend/app/algorithm/chromosome.py:43-54 | indices outside the pool, free periods and unknown teacher indices add nothing: dropping such a group leaves the hour's penalty unchanged |
| Chromosome.FitnessOf | backend/app/algorithm/chromosome.py:68-74 | the fitness lies in [0, 1] and is 1 exactly when there are no penalty points |
| Chromosome.FitnessAntitone | backend/app/algorithm/chromosome.py:72-74 | more penalty points never give a higher fitness |
| Chromosome.FitnessOneIffClean | backend/app/algorithm/chromosome.py:31-76 | `get_fitness()` is 1 exactly when the week has no unavailable teacher and no double booking at any hour |
| Chromosome.ClampIsLive | backend/app/algorithm/chromosome.py:68-74 | the weights of the normaliser (250, 700) are smaller than the penalties (500, 1000), so a week can score 2500 against a normaliser of 950 and be clamped to 0 |
| Chromosome.NewGenes | backend/app/algorithm/chromosome.py:21-24 | there is one gene per student group, gene g built for group g |
| Chromosome.NewChromosome | backend/app/algorithm/chromosome.py:9-26 | a new chromosome has one gene per group and its fitness cached |
| Chromosome.NewChromosomeWellFormed | backend/app/algorithm/chromosome.py:23-24 | every gene of a new chromosome is a permutation of its group's pool range |
| Chromosome.WellFormedFromParents | backend/app/algorithm/chromosome.py:28-29 | genes taken over unchanged from well-formed parents at the same index keep a chromosome well formed |
| Chromosome.SubjectPositionsListed | backend/app/algorithm/chromosome.py:93-99 | `subject_positions` lists every position whose lesson has a subject exactly once, under that subject, in ascending order, and nothing else |
| Chromosome.SubjectListsDisjoint | backend/app/algorithm/chromosome.py:93-99 | no position is listed under two subjects |
| Chromosome.GroupNameFound | backend/app/algorithm/chromosome.py:84-90 | the group name is the group of a lesson in the gene, or "Unknown Group" when every entry is a free period |
| Chromosome.TimetableDict | backend/app/algorithm/chromosome.py:81-101 | the dictionary's keys are exactly the group names |
| Chromosome.TimetableDictEntry | backend/app/algorithm/chromosome.py:101 | a group's entry is its own subject map unless a later group has the same name, which replaces it |
| Scheduler.ReverseSortedIsAscending | backend/app/algorithm/chromosome.py:111-112 | since `a < b` means a is fitter, the order `sort(reverse=True)` produces is ascending fitness: the least fit come first |
| Scheduler.SortReverse | backend/app/algorithm/scheduler_main.py:134 | `sort(reverse=True)`, here and on the first population at line 73, returns a permutation of the list in that order |
| Scheduler.SortReverseFacts | backend/app/algorithm/scheduler_main.py:73 | the sorted list has the same length and members as the input, with fitness ascending |
| Scheduler.EliteList | backend/app/algorithm/scheduler_main.py:146-149 | the elite is the prefix of `population_size // 10` chromosomes, cut short by a shorter list |
| Scheduler.EliteIsWorst | backend/app/algorithm/scheduler_main.py:146-149 | because of that order, the prefix roulette selects from, and that the elite loop at lines 89-92 carries over, is the least fit tenth: no chromosome after it has a lower fitness |
| Scheduler.RouletteIndex | backend/app/algorithm/scheduler_main.py:150-165 | with total elite fitness 0 the pick is uniform by the choice draw; otherwise it is the first index whose running sum reaches the point drawn in [0, total) |
| Scheduler.RouletteReaches | backend/app/algorithm/scheduler_main.py:159-165 | with a positive total a running sum always reaches the drawn point, so the fallback to the last element is never taken |
| Scheduler.Roulette | backend/app/algorithm/scheduler_main.py:142-165 | the selected parent is a copy of a member of the elite |
| Scheduler.SelectParentBest | backend/app/algorithm/scheduler_main.py:239-242 | the parent is a copy of one of the first (at most) 100 chromosomes |
| Scheduler.TakeGene | backend/app/algorithm/scheduler_main.py:198-205 | the child has the other parent's gene at the crossover index, its own genes elsewhere, and its fitness recomputed |
| Scheduler.Crossover | backend/app/algorithm/scheduler_main.py:191-211 | the father's child is returned only when strictly fitter than the mother's; otherwise the mother's child |
| Scheduler.CrossoverMixesParents | backend/app/algorithm/scheduler_main.py:196-201 | each gene of the child is the same-index gene of one of the parents |
| Scheduler.MutateFrom | backend/app/algorithm/scheduler_main.py:176-188 | each attempt replaces only the chosen gene with a fresh one; the loop stops at the first attempt reaching the target fitness or at the cap, and makes between 1 and 500000 attempts |
| Scheduler.CustomMutation | backend/app/algorithm/scheduler_main.py:168-188 | only gene `randrange(nostudentgroup)` changes, and unless the 500000-attempt cap stopped the loop the new fitness is at least the old one |
| Scheduler.CustomMutationWellFormed | backend/app/algorithm/scheduler_main.py:180 | the replacement is a fresh gene for its own group, so a well-formed chromosome stays well formed |
| Scheduler.Rotate | backend/app/algorithm/scheduler_main.py:251-254 | the first entry moves to the end and every other entry one place forward |
| Scheduler.RotatePermutes | backend/app/algorithm/scheduler_main.py:251-254 | the rotation is a permutation of the gene |
| Scheduler.RotateTimesSplit | backend/app/algorithm/scheduler_main.py:251-254 | n rotations move the first n entries to the end |
| Scheduler.RotateFullCircle | backend/app/algorithm/scheduler_main.py:251-254 | as many rotations as the gene has entries restore it |
| Scheduler.MutationSimple | backend/app/algorithm/scheduler_main.py:244-255 | only the chosen gene changes, its entries are kept as a multiset, and the fitness is recomputed |
| Scheduler.Swap | backend/app/algorithm/scheduler_main.py:267 | entries p and q are exchanged and every other entry is kept |
| Scheduler.SwapTwice | backend/app/algorithm/scheduler_main.py:267 | swapping the same two entries twice restores the gene |
| Scheduler.SwapMutation | backend/app/algorithm/scheduler_main.py:257-268 | only the chosen gene changes, its entries are kept as a multiset, and the fitness is recomputed |
| Scheduler.SimpleMutationsWellFormed | backend/app/algorithm/scheduler_main.py:244-268 | rotation and swap keep every gene a permutation of its group's pool range |
| Scheduler.Child | backend/app/algorithm/scheduler_main.py:99-110 | every child, crossed over or the father passed on, and mutated, has one gene per group and its fitness up to date |
| Scheduler.BreedFrom | backend/app/algorithm/scheduler_main.py:97-119 | without a son of fitness 1 the loop appends children until the counter reaches `population_size`; a son that stops it has fitness 1 |
| Scheduler.BreedFromKeeps | backend/app/algorithm/scheduler_main.py:97-119 | whatever holds of every child holds of every chromosome the loop appends and of the son that stops it |
| Scheduler.Breed | backend/app/algorithm/scheduler_main.py:97-119 | the bred chromosomes fit the configuration, and a son that stops the loop has fitness 1 |
| Scheduler.Generation | backend/app/algorithm/scheduler_main.py:82-138 | one generation either finds a son of fitness 1, or keeps the elite as the prefix of the new list and hands on that list sorted; since the counter is `elite_size - 1` after the elite loop, it breeds one chromosome more than the elite leaves room for |
| Scheduler.GenerationGrows | backend/app/algorithm/scheduler_main.py:89-97 | every generation after the first has `population_size + 1` chromosomes |
| Scheduler.GenerationEmpty | backend/app/algorithm/scheduler_main.py:84-97 | with no population to breed, a generation hands on nothing |
| Scheduler.GenerationWellFormed | backend/app/algorithm/scheduler_main.py:82-138 | every chromosome of the next generation, and the solution when one is found, keeps each gene a permutation of its group's pool range |
| Scheduler.Evolve | backend/app/algorithm/scheduler_main.py:77-138 | at most `max_generations` generations run, and a final son has fitness 1 and was found before the last generation completed |
| Scheduler.InitialPopulation | backend/app/algorithm/scheduler_main.py:60-75 | the first population has `population_size` new chromosomes, sorted |
| Scheduler.InitialPopulationWellFormed | backend/app/algorithm/scheduler_main.py:66-69 | every gene of the first population is a permutation of its group's pool range |
| Scheduler.Run | backend/app/algorithm/scheduler_main.py:25-56 | the run completes at most `max_generations` generations, and a final son has fitness 1 |
| Scheduler.RunSolution | backend/app/algorithm/scheduler_main.py:112-128 | a timetable the run reports is clash-free, with no teacher unavailable and none teaching two groups at any hour, and each gene is a permutation of its group's pool range |
| PyText.Split | backend/app/algorithm/input_data.py:87 | every token of `str.split()` is non-empty and free of whitespace |
| PyText.SplitJoin | backend/app/algorithm/time_table_input_transform_service.py:19 | `split()` of whitespace-free words joined by single spaces gives the words back |
| PyText.SplitWordThen | backend/app/algorithm/input_data.py:100 | a word followed by a space and more text splits into that word followed by the split of the rest |
| PyText.StripJoin | backend/app/algorithm/input_data.py:72 | `strip()` leaves a line of space-joined words unchanged |
| PyText.JoinHasSpace | backend/app/algorithm/input_data.py:76-83 | two or more joined words contain a space, so such a line is never one of the single-word section keywords |
| PyText.StripTrailingSpace | backend/app/algorithm/time_table_input_transform_service.py:31 | the unavailability line of a teacher without slots, `name + " "`, strips back to the name |
| PyText.BeforeFirst | backend/app/services/invigilator_service.py:13 | `s.split(c)[0]` is a prefix of s without c |
| PyText.PyIntShowInt | backend/app/algorithm/time_table_input_transform_service.py:18 | `int(str(n)) == n` exactly when n has at most 4300 digits, negative ones included; on the digits of a longer n `int` raises |
| PyText.ShowNatValue | backend/app/algorithm/time_table_input_transform_service.py:31 | the decimal digits of a natural number n, which `str(n)` prints, are a digit string in Python's `int` grammar whose value is n, and every one of them counts toward the 4300-digit limit |
| PyText.ShowIntIsWord | backend/app/algorithm/time_table_input_transform_service.py:18 | `str(n)` is a single non-empty token without whitespace |
| PyText.PyIntOfWord | backend/app/algorithm/input_data.py:113 | `int` of a whitespace-free token is the parse of that token itself (the surrounding-whitespace rule of `int` does not apply) |
| PyText.PyIntUnicodeDigits | backend/app/algorithm/input_data.py:113 | `int()` reads any Unicode decimal digits: `int("٣") == 3` and `int("１０") == 10` |
| PyText.PyIntSignedUnderscored | backend/app/algorithm/input_data.py:136 | `int()` strips surrounding blanks, takes a sign, skips single underscores between digits and mixes digit scripts: `int(" -1_0٥ ") == -105` |
| PyText.PyIntRejects | backend/app/algorithm/input_data.py:113 | `int()` raises on a doubled or leading underscore and on a stray character after the digits |
| PyText.PyIntDigitLimit | backend/app/algorithm/input_data.py:136 | `int()` reads 4300 digits, leading zeros included, and raises on 4301: `int("1" + "0" * 4300)` fails |
| PyText.PyIntTooManyDigits | backend/app/algorithm/input_data.py:136 | `int()` raises on any run of more than 4300 digits |
| PyText.BeforeFirstOf | backend/app/services/invigilator_service.py:13 | `(w + c + x).split(c)[0]` is w when w holds no c |
| PyText.WordIsStripped | backend/app/algorithm/input_data.py:72 | `strip()` leaves a whitespace-free token unchanged |
| InputData.HoursOf | backend/app/algorithm/input_data.py:112-122 | a pair's hours are `int(hrs)`, 0 when `int` raises, and a one-hour `_lab` subject gets 2: a lab never ends up with one hour |
| InputData.HoursUnicodeDigits | backend/app/algorithm/input_data.py:112-122 | hours written in non-ASCII digits are read as `int()` reads them (`٣` is 3 hours), and a one-hour lab written `１` still gets 2 |
| InputData.HoursDigitLimit | backend/app/algorithm/input_data.py:112-122 | an hours token of 4301 digits gets 0 hours, because `int` raises and the error is caught; as an unavailability slot the same token makes the slot list raise |
| InputData.PairsAt | backend/app/algorithm/input_data.py:108-109 | `zip(data[::2], data[1::2])` yields ⌊n/2⌋ pairs, pair i being tokens 2i and 2i + 1; an odd last token is dropped |
| InputData.DemandsOfAt | backend/app/algorithm/input_data.py:109-124 | subject i of a group is pair i's subject with its hours, and teacher index 0 |
| InputData.GroupOf | backend/app/algorithm/input_data.py:98-128 | a group line gives a group with the next index, the first token as its name, and min(⌊(n−1)/2⌋, 10) subjects |
| InputData.GroupOfRead | backend/app/algorithm/input_data.py:103-126 | a group read from a line has the next index, at most ten subjects, teacher index 0 everywhere and no one-hour lab |
| InputData.ParseSlots | backend/app/algorithm/input_data.py:136 | `[int(p) for p in parts]` succeeds exactly when every token is an integer, and then gives their values in order |
| InputData.SlotsUnicodeDigits | backend/app/algorithm/input_data.py:136 | an unavailability slot written `٣` loads as slot 3 |
| InputData.ParseStrippedWellFormed | backend/app/algorithm/input_data.py:71-139 | one line appends at most one group or teacher, keeps what was read, and keeps every group and teacher numbered by its position |
| InputData.ParseFrom | backend/app/algorithm/input_data.py:71-139 | the loop over the lines keeps groups and teachers numbered by position and only ever appends to them |
| InputData.KeywordLineSwitchesMode | backend/app/algorithm/input_data.py:76-83 | a keyword line switches the section in any letter case and whatever the current section is, and changes nothing else |
| InputData.PickTeacher | backend/app/algorithm/input_data.py:164-174 | a subject goes to the first teacher, in list order, among those of that subject (case-insensitive) with the fewest assignments; −1 exactly when no teacher teaches it |
| InputData.AssignOne | backend/app/algorithm/input_data.py:162-178 | one assignment raises the chosen teacher's count by one, records that teacher for the subject, keeps same-subject counts within one of each other, and does nothing when nobody teaches the subject |
| InputData.AssignDemands | backend/app/algorithm/input_data.py:162-178 | a group's subjects are assigned in order: each taught subject records a teacher of it, the others keep their index, balance is kept, and the counts grow by the number of taught subjects |
| InputData.AssignGroups | backend/app/algorithm/input_data.py:160-178 | `_assign_teacher` over all groups records a teacher of its subject for every taught subject, keeps counts of same-subject teachers within one, and adds one assignment per taught subject |
| InputData.MergeKeepsStaff | backend/app/algorithm/input_data.py:149-156 | the merge appends the slots listed under a teacher's lower-cased name to that teacher's slots and changes nothing else, so balance and assignment totals are kept |
| InputData.Load | backend/app/algorithm/input_data.py:51-53 | after assignment and merge, the groups and teachers are those parsed, in order and with their indices; every taught subject names a teacher of it, a subject nobody teaches keeps index 0, teachers of one subject are balanced, and the total count is the number of taught subjects |
| InputData.LoadInput | backend/app/algorithm/input_data.py:41-53 | loading succeeds exactly when the line-by-line parse does, and then has all of the properties above |
| InputData.ParseLineFails | backend/app/algorithm/input_data.py:72-136 | one line raises exactly when it is read in the unavailability section, is not a keyword after `strip()`, has at least two tokens and a slot token `int()` rejects; otherwise the section afterwards is the keyword's when the line is one and is unchanged when it is not |
| InputData.ParseFromFails | backend/app/algorithm/input_data.py:71-136 | the loop over the lines raises exactly when some line is such a bad slot line in the section the lines before it leave the parser in |
| InputData.LoadInputFails | backend/app/algorithm/input_data.py:61-145 | loading from the initial `mode = None` fails exactly when some line, read in the unavailability section the keyword lines before it opened, has a slot token `int()` rejects; that `ValueError` is not the caught `FileNotFoundError` |
| Transform.TransformLines | backend/app/algorithm/time_table_input_transform_service.py:10-32 | the file holds `g + t + u + 6` lines: the `studentgroups`, `teachers` and `teacherunavailability` sections in that order, each closed by `end`, with one line per group, teacher and unavailability entry in request order |
| Transform.SubjectTokensAt | backend/app/algorithm/time_table_input_transform_service.py:15-19 | on a group line, subject i is token 2i + 1 and `str` of its hours is token 2i + 2 |
| Transform.SlotsRead | backend/app/algorithm/time_table_input_transform_service.py:31 | the slot tokens `str(s)` read back through `int` as the slots themselves exactly when every slot has at most 4300 digits, and the read raises otherwise |
| Transform.GroupLineParses | backend/app/algorithm/time_table_input_transform_service.py:15-19 | inside the group section, a group line is read back as one group with the same name, subjects and hours |
| Transform.TeacherLineParses | backend/app/algorithm/time_table_input_transform_service.py:25 | inside the teacher section, a teacher line is read back as one teacher with the same name and subject |
| Transform.UnavailableLineParses | backend/app/algorithm/time_table_input_transform_service.py:31 | inside the unavailability section, a line with slots sets the lower-cased name's slot list, a line without slots is skipped, and a line with a slot of more than 4300 digits raises |
| Transform.GroupSection | backend/app/algorithm/time_table_input_transform_service.py:13-20 | the whole group section appends the request's groups, numbered from the groups read so far |
| Transform.TeacherSection | backend/app/algorithm/time_table_input_transform_service.py:23-26 | the whole teacher section appends the request's teachers, numbered from the teachers read so far |
| Transform.UnavailableSection | backend/app/algorithm/time_table_input_transform_service.py:29-32 | the whole unavailability section sets each listed teacher's slots, later entries for the same lower-cased name winning |
| Transform.RoundTrip | backend/app/algorithm/time_table_input_transform_service.py:4-32 | when every name and subject is one word, a group has at most ten subjects and no one-hour lab, no single-word line is a section keyword, and every hours and slot value has at most 4300 digits (as every integer of a JSON request body does), reading the written file back gives exactly the request's groups, teachers and unavailability, and the reader ends outside any section |
| Transform.SpacedNotKeyword | backend/app/algorithm/input_data.py:76-83 | a line holding a space is never a section keyword |
| Dates.Weekday | backend/app/services/invigilator_service.py:7 | `weekday()` is in 0..6 |
| Dates.WeekdayNext | backend/app/services/invigilator_service.py:189-201 | the next calendar day falls on the next weekday, Sunday wrapping to Monday |
| Dates.NewYear | backend/app/services/invigilator_service.py:201 | `timedelta(days=1)` crosses a year boundary: 1 January follows 31 December |
| Dates.NewMonth | backend/app/services/invigilator_service.py:201 | `timedelta(days=1)` crosses a month boundary: the first of a month follows the last day of the month before |
| Dates.YearLength | backend/app/services/invigilator_service.py:109-110 | a year of the proleptic Gregorian calendar holds exactly its 365 or 366 days |
| Dates.MaxOrdinalIsLastDay | backend/app/services/invigilator_service.py:275 | 9999-12-31, the last date `datetime` holds, has ordinal 3652059 and is a Friday, so the weekday path's step takes the loop past it |
| Dates.OrdinalAtMostMax | backend/app/services/invigilator_service.py:109-110 | no date `strptime` accepts lies after 9999-12-31 |
| Dates.January2024 | backend/test_invigilator_assignment.py:20-35 | 15 January 2024 was a Monday, the 16th a Tuesday and the 20th a Saturday, the dates the test script relies on |
| Invigilator.CalculateSlotNumber | backend/app/services/invigilator_service.py:5-27 | the slot is −1 or lies in [0, days·hours); it is not −1 exactly when the date parses, falls Monday to Friday, and the start hour parses and lies in the teaching day starting at 09:00 |
| Invigilator.SlotNumberDecodes | backend/app/services/invigilator_service.py:22 | a valid slot number decodes back to the exam's weekday and teaching hour |
| Invigilator.SlotNumberExamples | backend/test_invigilator_assignment.py:20-35 | Monday 09:00 is slot 0, Monday 10:00 slot 1, Tuesday 09:00 slot 7; Saturday, 08:00 and 16:00 give −1 |
| Invigilator.SlotNumberFullWidthHour | backend/app/services/invigilator_service.py:13 | a Monday exam at `１０:00` in full-width digits gets slot 1, as `int()` reads the hour as 10 |
| Invigilator.SlotNumberDigitLimit | backend/app/services/invigilator_service.py:5-27 | a Monday exam at 4299 zeros followed by `10:00` gets slot −1, because `int` raises on 4301 digits and the error is caught |
| Invigilator.AvailabilityCharacterised | backend/app/services/invigilator_service.py:29-72 | a teacher is unavailable exactly when they have an id and an availability record and the exam falls outside the teaching week or in one of their recorded slots; unknown teachers, teachers without id and teachers without a record are always available |
| Invigilator.AvailabilityAntitone | backend/app/services/invigilator_service.py:54-64 | recording more unavailable slots never makes anyone more available |
| Invigilator.RoundRobin | backend/app/services/invigilator_service.py:213-214 | attempt a tries the teacher at index (start + a) mod n |
| Invigilator.AvailableOn | backend/app/services/invigilator_service.py:217 | the teachers the loop may assign are exactly those of the list that `is_teacher_available` accepts for the exam |
| Invigilator.PickDay | backend/app/services/invigilator_service.py:206-240 | the day's teachers are distinct, at most `teachers_per_day`, all available and from the list, logged as assigned in order; when fewer are found, every available teacher met by the 3·n attempts was taken |
| Invigilator.PickDayAttempts | backend/app/services/invigilator_service.py:209-240 | attempt a of the log tried the teacher at index (start + a) mod n and was logged unavailable exactly when that teacher is unavailable; starting from no attempts, the log has at most 3·n attempts, and fewer only when the day is fully staffed |
| Invigilator.DayTeachers | backend/app/services/invigilator_service.py:206-240 | one weekday's round-robin gives distinct, available teachers from the list, at most `teachers_per_day` of them, named in order by the attempt log; the log has at most 3·n attempts, fewer only when the day is fully staffed, and attempt a tried the teacher at (start + a) mod n and was logged unavailable exactly when `is_teacher_available` refuses that teacher |
| Invigilator.UnderStaffedOnlyWhenExhausted | backend/app/services/invigilator_service.py:209-212 | a day is under-staffed only when every available teacher of the list was assigned to it |
| Invigilator.DayTeachersAllAvailable | backend/app/services/invigilator_service.py:212-219 | with distinct teachers who are all available, a day gets the next `teachers_per_day` of them in round-robin order |
| Invigilator.StatusOf | backend/app/services/invigilator_service.py:243-270 | a day is "failed" exactly when nobody was assigned and "success" exactly when the required number was reached; otherwise "partial" |
| Invigilator.Days | backend/app/services/invigilator_service.py:189-276 | every day from start to end is either recorded (a weekday) or skipped (a weekend), and each record's `assigned` is its number of teachers, at most `teachers_per_day`; for a range ending on 9999-12-31, the step after its last day raises instead, which `AssignInvigilators` reports |
| Invigilator.DaysOrdered | backend/app/services/invigilator_service.py:189-201 | records and skipped days are in date order, and the number of records is the number of weekdays in the range |
| Invigilator.StartAfterClosedForm | backend/app/services/invigilator_service.py:276 | after i weekdays the round-robin start, advanced by `teachers_per_day` mod n each weekday, is (start + i·teachers_per_day) mod n |
| Invigilator.RoundRobinStart | backend/app/services/invigilator_service.py:206-276 | the i-th recorded weekday runs the round-robin from the start reached after the i weekdays before it; weekends do not move the start |
| Invigilator.TotalAssignedBound | backend/app/services/invigilator_service.py:279-281 | no more teachers are assigned in total than days processed times `teachers_per_day` |
| Invigilator.AllTeachers | backend/app/services/invigilator_service.py:137-150 | the database list is the requested names that are known teachers, and the external list the others, each in the order given (checked against an independent in-order filter); together they hold exactly the requested names, repeats included |
| Invigilator.SiftPartition | backend/app/services/invigilator_service.py:140-146 | the two sides of the in-order filter together hold every requested name exactly as often as it was given, losing and adding nothing |
| Invigilator.SiftMembers | backend/app/services/invigilator_service.py:141-146 | every name on the database side is a known teacher and every name on the external side is not |
| Invigilator.SplitTeachers | backend/app/services/invigilator_service.py:137-146 | the left-to-right loop that appends each name to the side its lookup picks yields exactly the in-order filter of the names on each side |
| Invigilator.AssignInvigilators | backend/app/services/invigilator_service.py:107-301 | the request is rejected exactly when a date does not parse, the start is after the end, `teachers_per_day` ≤ 0, or the names are empty; otherwise the call raises OverflowError exactly when the range ends on 9999-12-31, whose following day the loop cannot reach; otherwise the days processed are the weekdays of the range, processed plus skipped days are all its days, the required total is days·`teachers_per_day`, and the assigned total and the successful days never exceed it |
| AvailabilityUpdate.AddTeacherFacts | backend/app/services/availability_update_service.py:64-70 | one teacher entry adds its name, when it has a name and subjects, and extends that name's subjects with the entry's; other names are unchanged |
| AvailabilityUpdate.MappingContents | backend/app/services/availability_update_service.py:58-76 | the mapping's keys are exactly the non-empty names of entries with a non-empty subject list over all documents, each once, and a name's value holds exactly the subjects listed for it |
| AvailabilityUpdate.FindByName | backend/app/services/availability_update_service.py:101 | `find_one({"name": ...})` returns a stored teacher with that name, and nothing only when none has it |
| AvailabilityUpdate.FirstTeachingIsFirst | backend/app/services/availability_update_service.py:88-95 | within one document the first teacher listing the subject is returned, and nothing exactly when none lists it |
| AvailabilityUpdate.InClassIsFirst | backend/app/services/availability_update_service.py:84-95 | the class-specific pass finds the first matching teacher in document-then-teacher order, and nothing exactly when no document of the class lists a teacher of the subject |
| AvailabilityUpdate.FindTeacherInInputCases | backend/app/services/availability_update_service.py:78-109 | the mapping fallback is consulted only when no class-specific teacher exists |
| AvailabilityUpdate.FromMappingIsFirst | backend/app/services/availability_update_service.py:97-109 | the fallback answers with the first key, in key order, that teaches the subject and that the teachers collection knows by name, and with nothing when there is none |
| AvailabilityUpdate.FindTeacherForSubjectIsFirst | backend/app/services/availability_update_service.py:111-115 | the first teacher whose `subjects` field lists the subject, and nothing exactly when none does |
| AvailabilityUpdate.FindRecord | backend/app/services/availability_update_service.py:120 | `find_one({"teacher_id": ...})` is the first record with that id, and nothing only when no record has it |
| AvailabilityUpdate.UpdateAvailabilityUnion | backend/app/services/availability_update_service.py:117-146 | after the update the teacher has a submitted record whose slots are the old ones plus the occupied ones, and every other teacher's slots are unchanged |
| AvailabilityUpdate.UpdateAvailabilityMonotone | backend/app/services/availability_update_service.py:132-144 | the update never removes a slot from any teacher |
| AvailabilityUpdate.UpdateAvailabilityIdempotent | backend/app/services/availability_update_service.py:117-146 | repeating an identical update changes no teacher's slots, and from the second call on changes nothing at all |
| AvailabilityUpdate.LastWithId | backend/app/services/availability_update_service.py:159-165 | the dict built from the teachers keeps the last teacher with each id, and the lookup fails exactly when no teacher has the id |
| AvailabilityUpdate.StatusReportsKnown | backend/app/services/availability_update_service.py:152-181 | the report has one row per record whose teacher id is known, in collection order, with that teacher's name and email, the record's slots, `total_unavailable` their count, and `total_teachers` the row count |
| AvailabilityUpdate.StatusDropsUnknown | backend/app/services/availability_update_service.py:165-167 | records with unknown teacher ids contribute no rows |
| AvailabilityUpdate.UpdateAfterTimetable | backend/app/services/availability_update_service.py:4-53 | the update fails exactly when there are no timetables or no input documents, and otherwise reports each updated teacher once |
| AvailabilityUpdate.UpdateAfterTimetableReports | backend/app/services/availability_update_service.py:37-53 | the reported names are exactly the `name` values of the teachers found for the timetables' subjects, each once; an input entry without a name contributes None, not "" |
| AvailabilityUpdate.UpdateAfterTimetableMarks | backend/app/services/availability_update_service.py:28-47 | afterwards every slot a timetable gives a subject is recorded as unavailable for the teacher the lookup finds for it, and no slot recorded before is lost |
| SlotGrid.FlatIndexDecodes | frontend-react/src/viewTimetable/page.jsx:186-188 | a cell (d, h) of the 5×7 grid gets the number d·7 + h in [0, 35), and that number gives back d and h |
| SlotGrid.FlatIndexBijection | frontend/app/viewTimetable/page.jsx:194-196 | d·7 + h is a bijection from the 5×7 grid onto [0, 35) whose inverse is (⌊x/7⌋, x mod 7), so every slot number the backend stores has exactly one cell |
| ViewTimetable.FindTimetable | frontend-react/src/viewTimetable/page.jsx:45 | `find` returns the first timetable whose `class_id` is the selection, and nothing exactly when no timetable has that class |
| ViewTimetable.Invert | frontend-react/src/viewTimetable/page.jsx:48-57 | a slot number is a key of the inverted map exactly when some array value of the table lists it; values that are not arrays, strings included, are skipped |
| ViewTimetable.InvertLastWins | frontend-react/src/viewTimetable/page.jsx:51-56 | when several subjects list a slot, the later entry overwrites: the slot shows the last entry listing it |
| ViewTimetable.ScheduleEffect | frontend-react/src/viewTimetable/page.jsx:42-62 | the effect does nothing without a selection or without timetables, sets null when no timetable has the class, and otherwise sets the inverted table of the first matching timetable (a missing `ttable` counts as `{}`); the Next.js page runs the same code |
| ViewTimetable.FirstContainingSpec | frontend-react/src/viewTimetable/page.jsx:74-77 | when every value is an array, the PDF lookup returns the subject of the first entry listing the slot, and "" when none lists it, as on the Next.js page |
| ViewTimetable.FirstContainingStops | frontend-react/src/viewTimetable/page.jsx:68-77 | over any values, the PDF lookup is decided by the first entry it stops at: an array listing the slot or a string containing its digits gives that subject, a value without `includes` gives the throw (None), and stopping nowhere gives "" |
| ViewTimetable.TextValueMatchesDigits | frontend-react/src/viewTimetable/page.jsx:75 | a string value `"0,12"` reports its subject for slot 12 and also for slot 1, since `includes` searches for the digits, but not for slot 3 |
| ViewTimetable.InvertAgrees | frontend-react/src/viewTimetable/page.jsx:48-77 | with array values and no slot listed twice, the on-screen map and the PDF loop give the same subject for every slot number, and both give nothing for unlisted slots |
| ViewTimetable.ScreenAgreesWithPdf | frontend-react/src/viewTimetable/page.jsx:68-78 | for the selected class, each (day, hour) cell of the PDF (`getSlotContent`) shows what the on-screen grid shows, with "" for an empty cell, whenever the table lists each slot at most once |
| ViewTimetable.PrintedTableDisjoint | backend/app/algorithm/chromosome.py:93-101 | a table built from the per-subject position lists of one gene has only array values and never lists a slot under two subjects, so the two views above agree on it |
| GiantTimetable.Merge | frontend-react/src/gtimetable/page.jsx:41-46 | the merged schedule is null exactly when no class is selected or there are no timetables |
| GiantTimetable.PushSlotsAppends | frontend-react/src/gtimetable/page.jsx:55-63 | pushing one subject's slot list appends one `{class, subject}` entry to the list of each listed slot, in list order, and changes nothing else |
| GiantTimetable.PushTableAppends | frontend-react/src/gtimetable/page.jsx:53-65 | a class's table appends the entries of its array values in entry order; values that are not arrays add nothing |
| GiantTimetable.PushClassAppends | frontend-react/src/gtimetable/page.jsx:50-51 | a selected class without a timetable, or whose timetable has no `ttable`, adds nothing |
| GiantTimetable.PushClassesAppends | frontend-react/src/gtimetable/page.jsx:49-66 | the selected classes append their entries in selection order |
| GiantTimetable.MergeSpec | frontend-react/src/gtimetable/page.jsx:47-147 | each slot of the merged schedule holds exactly the entries for that slot in selection, then entry, then list order; a slot has a key exactly when it has an entry; `getSlotContent(d, h)` shows the list of slot d·7+h, or [] |
| GiantTimetable.MergeTotal | frontend-react/src/gtimetable/page.jsx:47-68 | summed over all slots, the merged schedule holds as many entries as the selected classes' array values hold slot numbers: nothing is lost or duplicated |
| GiantTimetable.Remove | frontend-react/src/gtimetable/page.jsx:74 | deleting a class from the selection keeps every other class and the absence of duplicates |
| GiantTimetable.ToggleClass | frontend-react/src/gtimetable/page.jsx:71-79 | a toggle removes the class when it is selected and appends it otherwise; every other class keeps its membership |
| GiantTimetable.ToggleClassInvolution | frontend-react/src/gtimetable/page.jsx:71-79 | toggling a class twice restores the selected set, and the exact order when the class was not selected |
| GiantTimetable.SelectAll | frontend-react/src/gtimetable/page.jsx:81-87 | "select all" clears the selection when its size equals the number of timetables, and otherwise selects every class id once |
| GiantTimetable.SelectAllTwice | frontend-react/src/gtimetable/page.jsx:81-87 | with distinct class ids, a press that selects everything selects the ids in timetable order, and a second press clears the selection |
| AvailabilityPage.InitialGrid | frontend-react/src/teacher/availability/page.jsx:45-51 | the initial grid has five rows of seven cells, all 0 |
| AvailabilityPage.Toggle | frontend-react/src/teacher/availability/page.jsx:62-68 | a click turns the clicked cell from 0 to 1 and anything else to 0, and keeps every other cell and the grid's shape |
| AvailabilityPage.ToggleInvolution | frontend/app/teacher/availability/page.jsx:66-72 | clicking a 0/1 cell twice restores the grid |
| AvailabilityPage.TogglePreservesShape | frontend/app/teacher/availability/page.jsx:66-72 | clicks keep the grid five by seven and every cell 0 or 1 |
| AvailabilityPage.FlattenSlots | frontend-react/src/teacher/availability/page.jsx:76-85 | the submitted slots are exactly the numbers d·7 + h of the cells equal to 1, strictly increasing and in [0, 35) |
| AvailabilityPage.InitialGridSubmitsNothing | frontend/app/teacher/availability/page.jsx:50-56 | an untouched grid submits no slot |
| AvailabilityPage.ToggleFlatten | frontend/app/teacher/availability/page.jsx:66-89 | a click adds the clicked cell's slot to the submission or removes it, and leaves every other slot as it was |
| AvailabilityPage.Submit | frontend/app/teacher/availability/page.jsx:74-95 | nothing is sent without a teacher id (null or ""); otherwise the payload carries the id, `submitted: true` and exactly the flattened slots |
| JsText.IndexOf | frontend/app/teacher/availability/page.jsx:20-22 | `indexOf` finds the first occurrence of the key, and none exactly when the key never occurs |
| JsText.Includes | frontend/app/teacher/availability/page.jsx:20 | `s.includes(pat)` holds exactly when pat occurs somewhere in s |
| AvailabilityPage.FallbackIdSpec | frontend/app/teacher/availability/page.jsx:20-26 | the manual fallback yields an id exactly when `teacher_id=` occurs; the id starts right after the first occurrence, holds neither `&` nor `teacher_id=`, and stops only at the end, a `&` or the next `teacher_id=` |
| AvailabilityPage.TeacherIdFromUrl | frontend/app/teacher/availability/page.jsx:11-32 | the standard query parameter wins when it is non-empty; any other result comes from the fallback and is free of `&` and of the key; null or "" is returned only when the key is absent or the fallback itself reads "" |
| ResponsePage.AvailabilityMap | frontend-react/src/response/page.jsx:57-63 | the availability map has a key exactly for the non-empty `teacher_id`s of the records |
| ResponsePage.AvailabilityMapLatest | frontend-react/src/response/page.jsx:58-62 | a key maps to the last record carrying it: later records override earlier ones |
| ResponsePage.JsRem | frontend-react/src/response/page.jsx:369 | JavaScript's `%` agrees with the mathematical remainder on non-negative indices and lies in (−7, 0] on negative ones |
| ResponsePage.DecodeList | frontend-react/src/response/page.jsx:359-373 | decoding a slot list gives a 5×7 grid of 0/1 cells whose cell (d, h) is 1 exactly when d·7 + h is in the list; indices whose day does not exist are ignored |
| ResponsePage.Decode | frontend-react/src/response/page.jsx:364-365 | a missing `authentic_unavailability` decodes as the empty list, i.e. an all-zero grid |
| ResponsePage.DecodeFlatten | frontend-react/src/response/page.jsx:359-373 | decoding the slots the availability page flattens from a 0/1 grid gives back that grid |
| ResponsePage.SubmitThenDecode | frontend-react/src/response/page.jsx:359-373 | decoding the slots flattened from a 0/1 grid into a submitted payload gives back that grid |
| ResponsePage.SubjectHoursSum | frontend-react/src/response/page.jsx:132-138 | the class's `subjects` object has a key exactly for the subjects some teacher row lists, and each value is the sum of `parseInt(no_of_classes)`, NaN counting as 0, over the rows listing it |
| ResponsePage.AddSubjectsSum | frontend-react/src/response/page.jsx:133-136 | adding one row adds that row's hours once per listing of each subject |
| ResponsePage.FindClass | frontend-react/src/response/page.jsx:122-124 | the lookup returns the first document whose `class_name` is the selected class, and nothing when there is none |
| ResponsePage.Generate | frontend-react/src/response/page.jsx:121-158 | nothing is sent when no document has the class; otherwise one group with the per-subject sums, one teacher and one unavailability entry per row, the latter with the accepted slots or [] |
| ResponsePage.Accept | frontend-react/src/response/page.jsx:419-425 | accepting sets the teacher's slots to the record's `authentic_unavailability`, or [] when there is none, keeps every other key, and throws (None) when the availability map was never loaded |
| ResponsePage.AcceptThenGenerate | frontend-react/src/response/page.jsx:149-152 | after accepting a teacher, the generated request carries the accepted slots for every row with that teacher's id and leaves the other rows' slots unchanged |

## Left out

- Randomness: Python's `random` module is not modelled. Every shuffle, choice, `randrange`, `random()` and `uniform` is a draw passed in, and `random()` is a multiple of 2^-53 in [0, 1).
- Floating point: fitness, roulette sums and `crossover_rate` are exact `real`s. The test `fitness == 1.0` is exact, and rounding is not modelled.
- Database: the MongoDB collections are lists of documents or maps passed in. `find_one` is the first match and `insert_one` appends. Persistence (`time_table_storing_service.py`, saving invigilator assignments) and HTTP controllers, schemas, configuration and authentication are outside the model.
- File and console I/O: reading and writing `input.txt`, `print`, the log and timestamp building of the invigilator service, and the subprocess launch of the scheduler.
- Dates: `datetime.strptime` and `strftime` are not modelled. A date arrives as an `Option` of its proleptic ordinal, `None` standing for a parse error.
- `deep_clone`: values are immutable, so a clone is the value itself.
- Crashes of the source are preconditions instead of error results. This covers `random.randrange(0)` with no student groups, `random.choice([])` with a population of 1 to 9 (an empty elite), and rotation or swap on an empty gene. `Scheduler.Run` therefore requires a population of 0 or of at least 10 with at least one group.
- `Scheduler.CustomMutation`: the replacement genes are taken as a function from attempt number to gene draws, rather than drawn as the loop runs.
- `Scheduler.SortReverse`: it is an insertion sort into the same order as Python's sort, and Timsort's stability among equal fitnesses is not stated.
- `PyText.DigitZero`: the decimal-digit table is that of Unicode 15.0, the database of Python 3.12. Other Python versions differ in a few recently added scripts.
- `PyText.Lower`: it lowers ASCII letters only. This is exact for `_lab` and the section keywords, but approximate for names containing non-ASCII letters.
- `Common.Dedup`: `list(set(...))` returns its elements in an unspecified order, and the model keeps first-occurrence order. The teacher → subjects mapping keeps its values as sets for the same reason.
- `Transform.TransformLines`: a teacher's subject is a string. The responses page sends a list, which Python would print as its `repr`.
- Pages: slot numbers are integers. A stored `ttable` value is an array of integers, a string, or another value; arrays holding non-integers are not modelled. JavaScript's ordering of integer-like object keys is not modelled either: tables are lists of entries in a given order. `URLSearchParams` is a parameter of `AvailabilityPage.TeacherIdFromUrl`. Server-side rendering guards, JSX rendering, PDF output, toasts and `fetch` are left out.
- `ResponsePage.SubmitThenDecode`: it states only that decoding inverts flattening. The availability page posts `{teacher_id, slots, submitted}`. The service's availability schema forbids extra fields and requires `current_unavailability`, so it rejects that payload. Those `slots` therefore never become the `authentic_unavailability` that the responses page's modal decodes.
- `PyText.ShowNatValue`: `str(n)` is modelled as always producing n's digits. Python raises ValueError instead when n has more than 4300 digits. The serialiser applies `str` only to integers decoded from a JSON request body, and Python's JSON decoder reads integers with `int()`, which refuses more than 4300 digits, so no such value reaches `str`. `Transform.Representable` states this bound.
- `ResponsePage.AvailabilityMap`: the page's map is a plain JavaScript object. A record whose `teacher_id` is `__proto__` replaces the object's prototype and adds no key, but the model adds one. The other names inherited from `Object.prototype` (`constructor`, `toString`, `valueOf`, `hasOwnProperty`, `isPrototypeOf`, `propertyIsEnumerable`, `toLocaleString`, `__defineGetter__`, `__defineSetter__`, `__lookupGetter__`, `__lookupSetter__`) are not modelled either.
- `ResponsePage.AvailabilityMapLatest`: for the key `__proto__` the JavaScript object holds no own entry, so this property fails for that id. Ids are treated as keys with no inherited members.
- `ResponsePage.SubjectHoursSum`: a subject named `__proto__` never becomes a key of `subjects`. A subject named after another `Object.prototype` member, such as `constructor`, starts from that inherited member instead of 0 and gets a string value. The model treats every subject name as a fresh key.
- `ResponsePage.AddSubjectsSum`: `acc[s] || 0` reads an inherited `Object.prototype` member for such names, where the model reads 0.
- `ResponsePage.Generate`: `avaSlots[row.id] || []` yields an inherited `Object.prototype` member for an id such as `constructor`. That member is a function, which `JSON.stringify` drops from the entry, where the model sends `[]`. The per-subject sums inherit the gap of `ResponsePage.SubjectHoursSum`.
- `ResponsePage.AvailabilityMap`: keys are strings, and a falsy key is a missing or empty string. A numeric id 0 is not modelled.
- `GiantTimetable.SelectAll`: the selection is a list standing for a `Set`, and its size is compared with the number of timetables, as the page does.
- The UI-only pages (login, dashboard, timetable creation, invigilation forms), route guards and middleware are not part of the model.
