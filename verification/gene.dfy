/**
 * One student group's week of slots (backend/app/algorithm/gene.py): a
 * permutation of the group's pool indices. Lab subjects are placed as
 * blocks of consecutive slots where possible, everything else is shuffled
 * into the remaining slots.
 *
 * Python's `random` is replaced by explicit draw sequences (`GeneDraws`);
 * every property below holds for all draws.
 */
module Gene {
  import opened Common
  import opened InputData
  import opened Pool

  // ---------------------------------------------------------------------
  // Grouping the week's offsets by subject (`subject_to_offsets`)
  // ---------------------------------------------------------------------

  /** One entry of `subject_to_offsets`: a key (a subject, or None for free periods) and its offsets. */
  datatype Bucket = Bucket(key: Option<string>, offsets: seq<int>)

  /**
   * The grouping key of offset `o` of the group starting at pool index
   * `base`: the lesson's subject, or None for a free period, an index past
   * the pool, or an empty subject.
   */
  function KeyAt(pool: seq<Option<Lesson>>, base: int, o: int): (k: Option<string>)
    ensures k.Some? ==> |k.value| > 0
  {
    var index := base + o;
    if 0 <= index < |pool| && pool[index].Some? && |pool[index].value.subject| > 0
    then Some(pool[index].value.subject)
    else None
  }

  predicate DistinctKeys(bs: seq<Bucket>) {
    forall i, j :: 0 <= i < j < |bs| ==> bs[i].key != bs[j].key
  }

  /** `d.setdefault(k, []).append(o)` on a dictionary kept in insertion order. */
  function Insert(bs: seq<Bucket>, k: Option<string>, o: int): seq<Bucket>
    decreases |bs|
  {
    if |bs| == 0 then [Bucket(k, [o])]
    else if bs[0].key == k then [Bucket(k, bs[0].offsets + [o])] + bs[1..]
    else [bs[0]] + Insert(bs[1..], k, o)
  }

  /** `subject_to_offsets` after the loop has seen offsets 0 .. n-1 of the group starting at `base`. */
  function Buckets(pool: seq<Option<Lesson>>, base: int, n: nat): seq<Bucket>
    decreases n
  {
    if n == 0 then [] else Insert(Buckets(pool, base, n - 1), KeyAt(pool, base, n - 1), n - 1)
  }

  /** Every bucket holds exactly the offsets below n whose key is its key, and keys are distinct. */
  ghost predicate GroupedBy(bs: seq<Bucket>, pool: seq<Option<Lesson>>, base: int, n: nat) {
    && DistinctKeys(bs)
    && (forall i :: 0 <= i < |bs| ==> NoDups(bs[i].offsets) && |bs[i].offsets| > 0)
    && Exact(bs, pool, base, n)
    && Covered(bs, pool, base, n)
  }

  ghost predicate Exact(bs: seq<Bucket>, pool: seq<Option<Lesson>>, base: int, n: nat) {
    forall i :: 0 <= i < |bs| ==> Holds(bs[i], pool, base, n)
  }

  /** Bucket b holds exactly the offsets below n whose key is b's key. */
  ghost predicate Holds(b: Bucket, pool: seq<Option<Lesson>>, base: int, n: nat) {
    forall o :: o in b.offsets <==> 0 <= o < n && KeyAt(pool, base, o) == b.key
  }

  ghost predicate Covered(bs: seq<Bucket>, pool: seq<Option<Lesson>>, base: int, n: nat) {
    forall o :: 0 <= o < n ==> KeyAt(pool, base, o) in Keys(bs)
  }

  function Keys(bs: seq<Bucket>): (r: seq<Option<string>>)
    ensures |r| == |bs| && forall i :: 0 <= i < |bs| ==> r[i] == bs[i].key
  {
    seq(|bs|, i requires 0 <= i < |bs| => bs[i].key)
  }

  lemma {:induction false} InsertKeys(bs: seq<Bucket>, k: Option<string>, o: int)
    requires DistinctKeys(bs)
    ensures |Insert(bs, k, o)| == if exists i :: 0 <= i < |bs| && bs[i].key == k then |bs| else |bs| + 1
    ensures forall i :: 0 <= i < |bs| ==> Insert(bs, k, o)[i].key == bs[i].key
    ensures forall i :: 0 <= i < |bs| && bs[i].key != k ==> Insert(bs, k, o)[i] == bs[i]
    ensures forall i :: 0 <= i < |bs| && bs[i].key == k ==> Insert(bs, k, o)[i].offsets == bs[i].offsets + [o]
    ensures |Insert(bs, k, o)| > |bs| ==> Insert(bs, k, o)[|bs|] == Bucket(k, [o])
    decreases |bs|
  {
    if |bs| > 0 && bs[0].key != k {
      var tail := Insert(bs[1..], k, o);
      InsertKeys(bs[1..], k, o);
      assert Insert(bs, k, o) == [bs[0]] + tail;
      if exists i :: 0 <= i < |bs| && bs[i].key == k {
        var i :| 0 <= i < |bs| && bs[i].key == k;
        assert bs[1..][i - 1].key == k;
      }
      forall i | 0 <= i < |bs| && bs[i].key == k ensures Insert(bs, k, o)[i].offsets == bs[i].offsets + [o] {
        assert bs[1..][i - 1] == bs[i];
        assert Insert(bs, k, o)[i] == tail[i - 1];
      }
    }
  }

  lemma InsertExact(prev: seq<Bucket>, pool: seq<Option<Lesson>>, base: int, n: nat)
    requires DistinctKeys(prev) && Exact(prev, pool, base, n) && Covered(prev, pool, base, n)
    ensures Exact(Insert(prev, KeyAt(pool, base, n), n), pool, base, n + 1)
  {
    var k := KeyAt(pool, base, n);
    var bs := Insert(prev, k, n);
    InsertKeys(prev, k, n);
    forall i | 0 <= i < |bs| ensures Holds(bs[i], pool, base, n + 1) {
      if i < |prev| && prev[i].key == k {
        assert bs[i].offsets == prev[i].offsets + [n];
        assert Holds(prev[i], pool, base, n);
      } else if i < |prev| {
        assert bs[i] == prev[i];
        assert Holds(prev[i], pool, base, n);
      } else {
        assert i == |prev| && |bs| == |prev| + 1;
        assert bs[i] == Bucket(k, [n]);
      }
    }
  }

  lemma InsertCovered(prev: seq<Bucket>, pool: seq<Option<Lesson>>, base: int, n: nat)
    requires DistinctKeys(prev) && Covered(prev, pool, base, n)
    ensures Covered(Insert(prev, KeyAt(pool, base, n), n), pool, base, n + 1)
  {
    var k := KeyAt(pool, base, n);
    var bs := Insert(prev, k, n);
    InsertKeys(prev, k, n);
    forall o | 0 <= o < n + 1 ensures KeyAt(pool, base, o) in Keys(bs) {
      if o < n {
        assert KeyAt(pool, base, o) in Keys(prev);
        var i :| 0 <= i < |prev| && Keys(prev)[i] == KeyAt(pool, base, o);
        assert Keys(bs)[i] == prev[i].key;
      } else if exists i :: 0 <= i < |prev| && prev[i].key == k {
        var i :| 0 <= i < |prev| && prev[i].key == k;
        assert Keys(bs)[i] == k;
      } else {
        assert Keys(bs)[|prev|] == k;
      }
    }
  }

  lemma InsertDistinct(prev: seq<Bucket>, pool: seq<Option<Lesson>>, base: int, n: nat)
    requires GroupedBy(prev, pool, base, n)
    ensures DistinctKeys(Insert(prev, KeyAt(pool, base, n), n))
    ensures forall i :: 0 <= i < |Insert(prev, KeyAt(pool, base, n), n)| ==>
      NoDups(Insert(prev, KeyAt(pool, base, n), n)[i].offsets) && |Insert(prev, KeyAt(pool, base, n), n)[i].offsets| > 0
  {
    var k := KeyAt(pool, base, n);
    var bs := Insert(prev, k, n);
    InsertKeys(prev, k, n);
    forall i | 0 <= i < |bs| ensures NoDups(bs[i].offsets) && |bs[i].offsets| > 0 {
      if i < |prev| && prev[i].key == k {
        assert n !in prev[i].offsets;
      }
    }
    forall i, j | 0 <= i < j < |bs| ensures bs[i].key != bs[j].key {
      if j == |prev| {
        assert bs[j].key == k;
        assert prev[i].key != k;
      }
    }
  }

  lemma {:induction false} BucketsGrouped(pool: seq<Option<Lesson>>, base: int, n: nat)
    ensures GroupedBy(Buckets(pool, base, n), pool, base, n)
    decreases n
  {
    if n > 0 {
      var m: nat := n - 1;
      BucketsGrouped(pool, base, m);
      InsertGrouped(Buckets(pool, base, m), pool, base, m);
      assert Buckets(pool, base, n) == Insert(Buckets(pool, base, m), KeyAt(pool, base, m), m);
    }
  }

  lemma InsertGrouped(prev: seq<Bucket>, pool: seq<Option<Lesson>>, base: int, m: nat)
    requires GroupedBy(prev, pool, base, m)
    ensures GroupedBy(Insert(prev, KeyAt(pool, base, m), m), pool, base, m + 1)
  {
    InsertExact(prev, pool, base, m);
    InsertCovered(prev, pool, base, m);
    InsertDistinct(prev, pool, base, m);
  }

  /** The concatenation of a sequence of sequences. */
  function Concat<T>(xss: seq<seq<T>>): (r: seq<T>)
    decreases |xss|
  {
    if |xss| == 0 then [] else xss[0] + Concat(xss[1..])
  }

  lemma {:induction false} ConcatAppend<T>(a: seq<seq<T>>, b: seq<seq<T>>)
    ensures Concat(a + b) == Concat(a) + Concat(b)
    decreases |a|
  {
    if |a| > 0 {
      assert (a + b)[1..] == a[1..] + b;
      ConcatAppend(a[1..], b);
    } else {
      assert a + b == b;
    }
  }

  lemma ConcatRemoveAt<T>(xss: seq<seq<T>>, i: nat)
    requires i < |xss|
    ensures multiset(Concat(xss)) == multiset(xss[i]) + multiset(Concat(RemoveAt(xss, i)))
  {
    var a, b := Concat(xss[..i]), Concat(xss[i + 1..]);
    ConcatSplitAt(xss, i);
    ConcatRemoveAtSplit(xss, i);
    assert multiset(a + (xss[i] + b)) == multiset(a) + multiset(xss[i]) + multiset(b);
    assert multiset(a + b) == multiset(a) + multiset(b);
  }

  lemma ConcatSplitAt<T>(xss: seq<seq<T>>, i: nat)
    requires i < |xss|
    ensures Concat(xss) == Concat(xss[..i]) + (xss[i] + Concat(xss[i + 1..]))
  {
    SplitAround(xss, i);
    ConcatAround(xss[..i], xss[i], xss[i + 1..]);
  }

  lemma ConcatRemoveAtSplit<T>(xss: seq<seq<T>>, i: nat)
    requires i < |xss|
    ensures Concat(RemoveAt(xss, i)) == Concat(xss[..i]) + Concat(xss[i + 1..])
  {
    var a, b := xss[..i], xss[i + 1..];
    assert RemoveAt(xss, i) == a + b;
    ConcatAppend(a, b);
  }

  lemma ConcatAround<T>(a: seq<seq<T>>, x: seq<T>, b: seq<seq<T>>)
    ensures Concat(a + ([x] + b)) == Concat(a) + (x + Concat(b))
  {
    ConcatAppend(a, [x] + b);
    ConcatCons(x, b);
  }

  lemma ConcatCons<T>(x: seq<T>, ys: seq<seq<T>>)
    ensures Concat([x] + ys) == x + Concat(ys)
  {
    assert ([x] + ys)[1..] == ys;
  }

  /** Shuffling the blocks keeps the multiset of the offsets they hold. */
  lemma {:induction false} ConcatDraw<T>(xss: seq<seq<T>>, d: seq<nat>)
    ensures multiset(Concat(Draw(xss, |xss|, d))) == multiset(Concat(xss))
    decreases |xss|
  {
    if |xss| > 0 {
      var i := At(d, 0) % |xss|;
      var rest := RemoveAt(xss, i);
      assert |rest| == |xss| - 1;
      var tail := Draw(rest, |rest|, Rest(d));
      DrawUnfold(xss, |xss|, d);
      assert Draw(xss, |xss|, d) == [xss[i]] + tail;
      ConcatDraw(rest, Rest(d));
      ConcatRemoveAt(xss, i);
      ConcatDrawStep(xss, xss[i], tail, rest);
    }
  }

  lemma ConcatDrawStep<T>(xss: seq<seq<T>>, x: seq<T>, tail: seq<seq<T>>, rest: seq<seq<T>>)
    requires multiset(Concat(tail)) == multiset(Concat(rest))
    requires multiset(Concat(xss)) == multiset(x) + multiset(Concat(rest))
    ensures multiset(Concat([x] + tail)) == multiset(Concat(xss))
  {
    ConcatCons(x, tail);
  }

  /** A bucket that becomes a block: a lab subject. */
  predicate IsBlock(b: Bucket) {
    b.key.Some? && IsLab(b.key.value) && |b.offsets| > 0
  }

  /** `blocks`: the offsets of each lab subject, in bucket order. */
  function Blocks(bs: seq<Bucket>): seq<seq<int>>
    decreases |bs|
  {
    if |bs| == 0 then []
    else if IsBlock(bs[0]) then [bs[0].offsets] + Blocks(bs[1..])
    else Blocks(bs[1..])
  }

  /** Each block is the offset list of a lab bucket. */
  lemma {:induction false} BlocksAreLabBuckets(bs: seq<Bucket>, j: nat)
    requires j < |Blocks(bs)|
    ensures exists i :: 0 <= i < |bs| && IsBlock(bs[i]) && Blocks(bs)[j] == bs[i].offsets
    decreases |bs|
  {
    if IsBlock(bs[0]) && j == 0 {
      assert IsBlock(bs[0]) && Blocks(bs)[0] == bs[0].offsets;
    } else {
      var j' := if IsBlock(bs[0]) then j - 1 else j;
      assert Blocks(bs)[j] == Blocks(bs[1..])[j'];
      BlocksAreLabBuckets(bs[1..], j');
      var i :| 0 <= i < |bs[1..]| && IsBlock(bs[1..][i]) && Blocks(bs[1..])[j'] == bs[1..][i].offsets;
      assert bs[i + 1] == bs[1..][i];
    }
  }

  /** `singles`: the offsets of every other bucket, concatenated in bucket order. */
  function Singles(bs: seq<Bucket>): seq<int>
    decreases |bs|
  {
    if |bs| == 0 then []
    else if IsBlock(bs[0]) then Singles(bs[1..])
    else bs[0].offsets + Singles(bs[1..])
  }

  function AllOffsets(bs: seq<Bucket>): seq<int>
    decreases |bs|
  {
    if |bs| == 0 then [] else bs[0].offsets + AllOffsets(bs[1..])
  }

  /** Blocks and singles share out the buckets' offsets between them. */
  lemma {:induction false} BlocksAndSingles(bs: seq<Bucket>)
    ensures multiset(Concat(Blocks(bs))) + multiset(Singles(bs)) == multiset(AllOffsets(bs))
    decreases |bs|
  {
    if |bs| > 0 {
      BlocksAndSingles(bs[1..]);
      if IsBlock(bs[0]) {
        assert ([bs[0].offsets] + Blocks(bs[1..]))[1..] == Blocks(bs[1..]);
      }
    }
  }

  lemma {:induction false} InsertAllOffsets(bs: seq<Bucket>, k: Option<string>, o: int)
    ensures multiset(AllOffsets(Insert(bs, k, o))) == multiset(AllOffsets(bs)) + multiset{o}
    decreases |bs|
  {
    if |bs| == 0 {
      assert AllOffsets([Bucket(k, [o])]) == [o];
    } else if bs[0].key == k {
      var r := Insert(bs, k, o);
      assert r[1..] == bs[1..];
      assert AllOffsets(r) == bs[0].offsets + [o] + AllOffsets(bs[1..]);
    } else {
      var r := Insert(bs, k, o);
      InsertAllOffsets(bs[1..], k, o);
      assert r[1..] == Insert(bs[1..], k, o);
    }
  }

  /** Every offset of the week lands in exactly one bucket. */
  lemma {:induction false} BucketsOffsets(pool: seq<Option<Lesson>>, base: int, n: nat)
    ensures multiset(AllOffsets(Buckets(pool, base, n))) == multiset(Range(0, n))
    decreases n
  {
    if n > 0 {
      var m: nat := n - 1;
      var prev := Buckets(pool, base, m);
      BucketsOffsets(pool, base, m);
      InsertAllOffsets(prev, KeyAt(pool, base, m), m);
      assert Buckets(pool, base, n) == Insert(prev, KeyAt(pool, base, m), m);
      RangeSnoc(0, m);
      assert multiset(Range(0, n)) == multiset(Range(0, m)) + multiset{m};
    }
  }

  // ---------------------------------------------------------------------
  // Placing offsets into positions (`placement`, `free_positions`)
  // ---------------------------------------------------------------------

  /** `placement`: the offset placed at each position of the week, or None while the position is free. */
  type Placement = seq<Option<int>>

  /** The free positions below n, in ascending order. */
  function FreeUpTo(pl: Placement, n: nat): (r: seq<int>)
    requires n <= |pl|
    ensures StrictlyIncreasing(r)
    ensures forall x :: x in r <==> 0 <= x < n && pl[x].None?
    ensures forall i :: 0 <= i < |r| ==> 0 <= r[i] < n
    decreases n
  {
    if n == 0 then [] else FreeUpTo(pl, n - 1) + (if pl[n - 1].None? then [n - 1] else [])
  }

  /** `sorted(free_positions)`. */
  function FreeList(pl: Placement): (r: seq<int>)
    ensures StrictlyIncreasing(r) && NoDups(r)
    ensures forall x :: x in r <==> 0 <= x < |pl| && pl[x].None?
    ensures forall i :: 0 <= i < |r| ==> 0 <= r[i] < |pl| && pl[r[i]].None?
  {
    var r := FreeUpTo(pl, |pl|);
    StrictlyIncreasingNoDups(r);
    r
  }

  lemma {:induction false} FreeUpToWrite(pl: Placement, p: int, v: int, n: nat)
    requires n <= |pl| && 0 <= p < |pl| && pl[p].None?
    ensures |FreeUpTo(pl[p := Some(v)], n)| == |FreeUpTo(pl, n)| - (if p < n then 1 else 0)
    decreases n
  {
    if n > 0 {
      FreeUpToWrite(pl, p, v, n - 1);
    }
  }

  lemma {:induction false} FreeUpToEmpty(pl: Placement, n: nat)
    requires n <= |pl|
    requires forall p :: 0 <= p < |pl| ==> pl[p].None?
    ensures FreeUpTo(pl, n) == Range(0, n)
    decreases n
  {
    if n > 0 {
      FreeUpToEmpty(pl, n - 1);
      RangeSnoc(0, n - 1);
    }
  }

  /**
   * The placement invariant: `pending` lists the offsets still to place,
   * without repetition; the placed offsets are distinct, within the week
   * and not pending; and there are exactly as many free positions as
   * pending offsets.
   */
  ghost predicate Inv(pl: Placement, pending: seq<int>, T: nat) {
    && |pl| == T
    && NoDups(pending)
    && (forall i :: 0 <= i < |pending| ==> 0 <= pending[i] < T)
    && (forall p :: 0 <= p < T && pl[p].Some? ==> 0 <= pl[p].value < T && pl[p].value !in pending)
    && (forall p, q :: 0 <= p < q < T && pl[p].Some? && pl[q].Some? ==> pl[p].value != pl[q].value)
    && |FreeList(pl)| == |pending|
  }

  /** Placing the next pending offset at a free position keeps the invariant. */
  lemma WriteOne(pl: Placement, v: int, rest: seq<int>, T: nat, p: int)
    requires Inv(pl, [v] + rest, T) && 0 <= p < T && pl[p].None?
    ensures Inv(pl[p := Some(v)], rest, T)
  {
    var pending := [v] + rest;
    var pl' := pl[p := Some(v)];
    assert pending[0] == v && pending[1..] == rest;
    assert NoDups(rest) by {
      forall i, j | 0 <= i < j < |rest| ensures rest[i] != rest[j] {
        assert rest[i] == pending[i + 1] && rest[j] == pending[j + 1];
      }
    }
    assert v !in rest by {
      forall i | 0 <= i < |rest| ensures rest[i] != v {
        assert rest[i] == pending[i + 1];
      }
    }
    forall q | 0 <= q < T && pl'[q].Some? ensures 0 <= pl'[q].value < T && pl'[q].value !in rest {
      if q != p {
        assert pl'[q] == pl[q];
        assert pl[q].value !in pending;
      }
    }
    forall q, r | 0 <= q < r < T && pl'[q].Some? && pl'[r].Some? ensures pl'[q].value != pl'[r].value {
      if q == p {
        assert pl[r].value !in pending;
      } else if r == p {
        assert pl[q].value !in pending;
      }
    }
    FreeUpToWrite(pl, p, v, |pl|);
  }

  /** The positions `ps` are distinct, inside the week and free. */
  predicate Fresh(pl: Placement, ps: seq<int>) {
    NoDups(ps) && forall i :: 0 <= i < |ps| ==> IsFree(pl, ps[i])
  }

  /** `for pos, off in zip(ps, vs): placement[pos] = off`. */
  function Write(pl: Placement, ps: seq<int>, vs: seq<int>): (r: Placement)
    requires forall i :: 0 <= i < |ps| ==> 0 <= ps[i] < |pl|
    ensures |r| == |pl|
    decreases |ps|
  {
    if |ps| == 0 || |vs| == 0 then pl else Write(pl[ps[0] := Some(vs[0])], ps[1..], vs[1..])
  }

  lemma FreshTail(pl: Placement, ps: seq<int>, v: int)
    requires Fresh(pl, ps) && |ps| > 0
    ensures Fresh(pl[ps[0] := Some(v)], ps[1..])
  {
    var pl' := pl[ps[0] := Some(v)];
    forall i | 0 <= i < |ps[1..]| ensures 0 <= ps[1..][i] < |pl'| && pl'[ps[1..][i]].None? {
      assert ps[1..][i] == ps[i + 1] != ps[0];
    }
  }

  /** Writing pending offsets into as many fresh positions keeps the invariant. */
  lemma {:induction false} WriteInv(pl: Placement, ps: seq<int>, vs: seq<int>, rest: seq<int>, T: nat)
    requires Inv(pl, vs + rest, T) && Fresh(pl, ps) && |ps| == |vs|
    ensures Inv(Write(pl, ps, vs), rest, T)
    decreases |ps|
  {
    if |ps| > 0 {
      assert vs + rest == [vs[0]] + (vs[1..] + rest);
      WriteOne(pl, vs[0], vs[1..] + rest, T, ps[0]);
      FreshTail(pl, ps, vs[0]);
      WriteInv(pl[ps[0] := Some(vs[0])], ps[1..], vs[1..], rest, T);
    } else {
      assert vs + rest == rest;
    }
  }

  /** Each written position holds its offset; every other position is untouched. */
  lemma {:induction false} WriteAt(pl: Placement, ps: seq<int>, vs: seq<int>)
    requires Fresh(pl, ps) && |ps| == |vs|
    ensures forall i :: 0 <= i < |ps| ==> Write(pl, ps, vs)[ps[i]] == Some(vs[i])
    ensures forall p :: 0 <= p < |pl| && p !in ps ==> Write(pl, ps, vs)[p] == pl[p]
    decreases |ps|
  {
    if |ps| > 0 {
      var pl' := pl[ps[0] := Some(vs[0])];
      FreshTail(pl, ps, vs[0]);
      WriteAt(pl', ps[1..], vs[1..]);
      forall i | 0 <= i < |ps| ensures Write(pl, ps, vs)[ps[i]] == Some(vs[i]) {
        if i == 0 {
          assert ps[0] !in ps[1..] by {
            forall j | 0 <= j < |ps[1..]| ensures ps[1..][j] != ps[0] {
              assert ps[1..][j] == ps[j + 1];
            }
          }
        } else {
          assert ps[1..][i - 1] == ps[i];
        }
      }
    }
  }

  /** Writing into fresh positions frees exactly that many positions fewer. */
  lemma {:induction false} WriteFreeCount(pl: Placement, ps: seq<int>, vs: seq<int>)
    requires Fresh(pl, ps) && |ps| == |vs|
    ensures |FreeList(Write(pl, ps, vs))| == |FreeList(pl)| - |ps|
    decreases |ps|
  {
    if |ps| > 0 {
      FreeUpToWrite(pl, ps[0], vs[0], |pl|);
      FreshTail(pl, ps, vs[0]);
      WriteFreeCount(pl[ps[0] := Some(vs[0])], ps[1..], vs[1..]);
    }
  }

  /** pl2 keeps every offset pl has placed. */
  ghost predicate Extends(pl: Placement, pl2: Placement) {
    |pl2| == |pl| && forall p :: 0 <= p < |pl| && pl[p].Some? ==> pl2[p] == pl[p]
  }

  lemma WriteExtends(pl: Placement, ps: seq<int>, vs: seq<int>)
    requires Fresh(pl, ps) && |ps| == |vs|
    ensures Extends(pl, Write(pl, ps, vs))
  {
    WriteAt(pl, ps, vs);
  }

  // ---------------------------------------------------------------------
  // Placing one lab block (`find_block_position` and its two fallbacks)
  // ---------------------------------------------------------------------

  /**
   * The arithmetic part of `find_block_position`'s test for a block of m
   * slots starting at `pos`: its hour of the day is below `hours - m`, and
   * the block does not run from before lunch to after it.
   */
  predicate FitsDay(pos: int, m: int, hours: int, lunch: int)
    requires hours > 0
  {
    var dh := pos % hours;
    dh < hours - m && !(dh < lunch && dh + m > lunch)
  }

  /** Position q is inside the week and still free (`q in free_positions`). */
  predicate IsFree(pl: Placement, q: int) {
    0 <= q < |pl| && pl[q].None?
  }

  /** `find_block_position` accepts `pos`: the test above, and positions pos .. pos+m-1 all free. */
  predicate Fits(pl: Placement, pos: int, m: nat, hours: int, lunch: int)
    requires hours > 0
  {
    FitsDay(pos, m, hours, lunch) && FreeRun(pl, pos, m)
  }

  /** Positions p .. p+m-1 are all free. */
  predicate FreeRun(pl: Placement, p: int, m: nat) {
    forall q :: p <= q < p + m ==> IsFree(pl, q)
  }

  /** The first candidate that fits. */
  function FirstFit(pl: Placement, cands: seq<int>, m: nat, hours: int, lunch: int): (r: Option<int>)
    requires hours > 0
    ensures r.Some? ==> r.value in cands && Fits(pl, r.value, m, hours, lunch)
    ensures r.None? <==> forall i :: 0 <= i < |cands| ==> !Fits(pl, cands[i], m, hours, lunch)
    decreases |cands|
  {
    if |cands| == 0 then None
    else if Fits(pl, cands[0], m, hours, lunch) then Some(cands[0])
    else
      var r := FirstFit(pl, cands[1..], m, hours, lunch);
      assert forall i :: 1 <= i < |cands| ==> cands[i] == cands[1..][i - 1];
      r
  }

  /** `find_block_position(m)`: the free positions in random order, the first that fits. */
  function FindBlockPosition(pl: Placement, m: nat, hours: int, lunch: int, probe: seq<nat>): (r: Option<int>)
    requires hours > 0
    ensures r.Some? ==> Fits(pl, r.value, m, hours, lunch)
    ensures m >= 1 ==> (r.None? <==> forall p :: !Fits(pl, p, m, hours, lunch))
  {
    var cands := Shuffle(FreeList(pl), probe);
    if m >= 1 then
      FirstFitComplete(pl, cands, m, hours, lunch);
      FirstFit(pl, cands, m, hours, lunch)
    else
      FirstFit(pl, cands, m, hours, lunch)
  }

  lemma FirstFitComplete(pl: Placement, cands: seq<int>, m: nat, hours: int, lunch: int)
    requires hours > 0 && m >= 1
    requires multiset(cands) == multiset(FreeList(pl))
    ensures FirstFit(pl, cands, m, hours, lunch).None? <==> forall p :: !Fits(pl, p, m, hours, lunch)
  {
    CandidatesCoverFits(pl, cands, m, hours, lunch);
  }

  /** Every start that fits is a free position, so it is among the shuffled candidates. */
  lemma CandidatesCoverFits(pl: Placement, cands: seq<int>, m: nat, hours: int, lunch: int)
    requires hours > 0 && m >= 1
    requires multiset(cands) == multiset(FreeList(pl))
    ensures forall p :: Fits(pl, p, m, hours, lunch) ==> exists i :: 0 <= i < |cands| && cands[i] == p
  {
    forall p | Fits(pl, p, m, hours, lunch) ensures exists i :: 0 <= i < |cands| && cands[i] == p {
      assert FreeRun(pl, p, m);
      assert IsFree(pl, p);
      assert p in FreeList(pl);
      assert p in multiset(cands);
      assert p in cands;
    }
  }

  /**
   * The first fallback: the first window of m entries of the ascending free
   * list whose ends are m - 1 apart, scanning from index `idx`; its first
   * position.
   */
  function ScanFrom(sf: seq<int>, m: nat, idx: nat): (r: Option<int>)
    requires m >= 1
    ensures r.Some? ==> exists i: nat :: idx <= i && Window(sf, i, m) && sf[i] == r.value
    ensures r.None? <==> forall i: nat :: idx <= i ==> !Window(sf, i, m)
    decreases |sf| - idx
  {
    if idx + m > |sf| then None
    else if sf[idx + m - 1] - sf[idx] == m - 1 then Some(sf[idx])
    else ScanFrom(sf, m, idx + 1)
  }

  /** Entries i .. i+m-1 of sf exist and their ends are m - 1 apart. */
  predicate Window(sf: seq<int>, i: nat, m: nat)
    requires m >= 1
  {
    i + m <= |sf| && sf[i + m - 1] - sf[i] == m - 1
  }

  /** In an ascending list, a window whose ends are m - 1 apart holds m consecutive integers. */
  lemma RunIsContiguous(sf: seq<int>, m: nat, i: nat)
    requires StrictlyIncreasing(sf) && m >= 1 && i + m <= |sf| && sf[i + m - 1] - sf[i] == m - 1
    ensures forall j :: i <= j < i + m ==> sf[j] == sf[i] + (j - i)
  {
    forall j | i <= j < i + m ensures sf[j] == sf[i] + (j - i) {
      IncreasingGap(sf, i, j);
      IncreasingGap(sf, j, i + m - 1);
    }
  }

  /** Conversely, m consecutive free positions always give the scan a window to find. */
  lemma {:induction false} ConsecutiveFreeIsRun(sf: seq<int>, i: nat, k: nat)
    requires StrictlyIncreasing(sf) && i < |sf|
    requires forall x :: sf[i] <= x <= sf[i] + k ==> x in sf
    ensures i + k < |sf| && sf[i + k] == sf[i] + k
    decreases k
  {
    if k > 0 {
      ConsecutiveFreeIsRun(sf, i, k - 1);
      var x := sf[i] + k;
      assert x in sf;
      var j :| 0 <= j < |sf| && sf[j] == x;
      assert j >= i + k;
      assert sf[i + k] > sf[i + k - 1];
    }
  }

  /** How a block was placed. */
  datatype Strategy =
    | Fitted(start: int)           // `find_block_position` found a start
    | Scanned(start: int)          // the scan of the sorted free positions found a run
    | Scattered(chosen: seq<int>)  // m positions drawn at random

  /** The positions a block of m offsets was written to. */
  function Positions(s: Strategy, m: nat): seq<int> {
    match s
    case Fitted(start) => Range(start, start + m)
    case Scanned(start) => Range(start, start + m)
    case Scattered(chosen) => chosen
  }

  /** Placing one block of m offsets at the positions of a strategy. */
  ghost predicate Placed(pl: Placement, s: Strategy, block: seq<int>) {
    var ps := Positions(s, |block|);
    |ps| == |block| && forall k :: 0 <= k < |block| ==> 0 <= ps[k] < |pl| && pl[ps[k]] == Some(block[k])
  }

  /** No m consecutive positions of the week are free. */
  ghost predicate NoFreeRun(pl: Placement, m: nat) {
    forall p :: !FreeRun(pl, p, m)
  }

  lemma FittedFresh(pl: Placement, start: int, m: nat)
    requires FreeRun(pl, start, m)
    ensures Fresh(pl, Positions(Fitted(start), m))
  {
    var r := Range(start, start + m);
    RangeNoDups(start, start + m);
    forall k | 0 <= k < m ensures IsFree(pl, r[k]) {
      assert r[k] == start + k;
    }
    PositionsOfRun(start, m);
  }

  lemma PositionsOfRun(start: int, m: nat)
    ensures Positions(Fitted(start), m) == Range(start, start + m)
    ensures Positions(Scanned(start), m) == Range(start, start + m)
  {
  }

  /** A window of the ascending free list whose ends are m - 1 apart is a run of free positions. */
  lemma RunFresh(pl: Placement, sf: seq<int>, i: nat, m: nat, start: int)
    requires StrictlyIncreasing(sf) && forall x :: x in sf ==> IsFree(pl, x)
    requires m >= 1 && i + m <= |sf| && sf[i + m - 1] - sf[i] == m - 1 && sf[i] == start
    ensures Fresh(pl, Range(start, start + m))
  {
    RunIsContiguous(sf, m, i);
    var r := Range(start, start + m);
    RangeNoDups(start, start + m);
    forall k | 0 <= k < m ensures IsFree(pl, r[k]) {
      var j := i + k;
      assert sf[j] == r[k];
    }
  }

  lemma ScannedFresh(pl: Placement, m: nat, start: int)
    requires m >= 1 && ScanFrom(FreeList(pl), m, 0) == Some(start)
    ensures Fresh(pl, Positions(Scanned(start), m))
  {
    var sf := FreeList(pl);
    var i: nat :| Window(sf, i, m) && sf[i] == start;
    RunFresh(pl, sf, i, m, start);
    PositionsOfRun(start, m);
  }

  lemma ScatteredFresh(pl: Placement, m: nat, pick: seq<nat>)
    requires m <= |FreeList(pl)|
    ensures Fresh(pl, Positions(Scattered(Draw(FreeList(pl), m, pick)), m))
  {
    var chosen := Draw(FreeList(pl), m, pick);
    forall i | 0 <= i < |chosen| ensures IsFree(pl, chosen[i]) {
      assert chosen[i] in FreeList(pl);
    }
  }

  /** Where the next block of m offsets goes: a fitting start, else a scanned run, else random positions. */
  function ChooseStrategy(pl: Placement, m: nat, hours: int, lunch: int, probe: seq<nat>, pick: seq<nat>): Strategy
    requires hours > 0 && 1 <= m <= |FreeList(pl)|
  {
    var found := FindBlockPosition(pl, m, hours, lunch, probe);
    if found.Some? then Fitted(found.value)
    else
      var scanned := ScanFrom(FreeList(pl), m, 0);
      if scanned.Some? then Scanned(scanned.value)
      else Scattered(Draw(FreeList(pl), m, pick))
  }

  /** The chosen positions are m distinct free positions. */
  lemma StrategyFresh(pl: Placement, m: nat, hours: int, lunch: int, probe: seq<nat>, pick: seq<nat>)
    requires hours > 0 && 1 <= m <= |FreeList(pl)|
    ensures Fresh(pl, Positions(ChooseStrategy(pl, m, hours, lunch, probe, pick), m))
    ensures |Positions(ChooseStrategy(pl, m, hours, lunch, probe, pick), m)| == m
  {
    var s := ChooseStrategy(pl, m, hours, lunch, probe, pick);
    StrategyFits(pl, m, hours, lunch, probe, pick);
    match s
    case Fitted(start) =>
      FittedFresh(pl, start, m);
    case Scanned(start) =>
      assert ScanFrom(FreeList(pl), m, 0) == Some(start);
      ScannedFresh(pl, m, start);
    case Scattered(chosen) =>
      assert chosen == Draw(FreeList(pl), m, pick);
      ScatteredFresh(pl, m, pick);
  }

  /**
   * A block is fitted only where `find_block_position`'s test allows, and
   * the fallbacks are used only when no start in the week passes it.
   */
  lemma StrategyFits(pl: Placement, m: nat, hours: int, lunch: int, probe: seq<nat>, pick: seq<nat>)
    requires hours > 0 && 1 <= m <= |FreeList(pl)|
    ensures ChooseStrategy(pl, m, hours, lunch, probe, pick).Fitted? ==> Fits(pl, ChooseStrategy(pl, m, hours, lunch, probe, pick).start, m, hours, lunch)
    ensures !ChooseStrategy(pl, m, hours, lunch, probe, pick).Fitted? ==> forall p :: !Fits(pl, p, m, hours, lunch)
  {
  }

  /** A run of m free positions is found by the scan of the sorted free list. */
  lemma FreeRunIsWindow(pl: Placement, p: int, m: nat)
    requires m >= 1 && FreeRun(pl, p, m)
    ensures exists i: nat :: Window(FreeList(pl), i, m)
  {
    var sf := FreeList(pl);
    assert IsFree(pl, p);
    var i :| 0 <= i < |sf| && sf[i] == p;
    forall x | sf[i] <= x <= sf[i] + (m - 1) ensures x in sf {
      assert IsFree(pl, x);
    }
    ConsecutiveFreeIsRun(sf, i, m - 1);
    assert Window(sf, i, m);
  }

  /** Blocks are scattered at random only when no m consecutive positions are free. */
  lemma ScatteredOnlyWithoutRun(pl: Placement, m: nat, hours: int, lunch: int, probe: seq<nat>, pick: seq<nat>)
    requires hours > 0 && 1 <= m <= |FreeList(pl)|
    ensures ChooseStrategy(pl, m, hours, lunch, probe, pick).Scattered? <==> NoFreeRun(pl, m)
  {
    var s := ChooseStrategy(pl, m, hours, lunch, probe, pick);
    if s.Scattered? {
      forall p ensures !FreeRun(pl, p, m) {
        if FreeRun(pl, p, m) {
          FreeRunIsWindow(pl, p, m);
        }
      }
    } else {
      StrategyFresh(pl, m, hours, lunch, probe, pick);
      var start := s.start;
      PositionsOfRun(start, m);
      var r := Range(start, start + m);
      assert FreeRun(pl, start, m) by {
        forall q | start <= q < start + m ensures IsFree(pl, q) {
          assert r[q - start] == q;
        }
      }
    }
  }

  /**
   * The scan fallback only asks for consecutive free positions, so it can
   * place a block across two days: with two hours a day a two-hour block
   * never passes `find_block_position`'s test, and with positions 1 and 2
   * the only free ones it goes to the last hour of day 0 and the first of day 1.
   */
  lemma ScanCrossesDays(lunch: int, probe: seq<nat>, pick: seq<nat>)
    ensures |FreeList([Some(0), None, None, Some(3)])| == 2
    ensures ChooseStrategy([Some(0), None, None, Some(3)], 2, 2, lunch, probe, pick) == Scanned(1)
    ensures DayOf(1, 2) == 0 && DayOf(2, 2) == 1
  {
    var pl: Placement := [Some(0), None, None, Some(3)];
    ExampleFreeList();
    ExampleNothingFits(lunch);
    assert FindBlockPosition(pl, 2, 2, lunch, probe).None?;
    assert ScanFrom([1, 2], 2, 0) == Some(1);
  }

  lemma ExampleFreeList()
    ensures FreeList([Some(0), None, None, Some(3)]) == [1, 2]
  {
    var pl: Placement := [Some(0), None, None, Some(3)];
    assert FreeUpTo(pl, 1) == [];
    assert FreeUpTo(pl, 3) == [1, 2];
  }

  lemma ExampleNothingFits(lunch: int)
    ensures forall p :: !Fits([Some(0), None, None, Some(3)], p, 2, 2, lunch)
  {
    forall p ensures !Fits([Some(0), None, None, Some(3)], p, 2, 2, lunch) {
      assert !FitsDay(p, 2, 2, lunch);
    }
  }


  // ---------------------------------------------------------------------
  // The block loop
  // ---------------------------------------------------------------------

  lemma ConcatLength<T>(xss: seq<seq<T>>)
    requires |xss| > 0
    ensures |Concat(xss)| == |xss[0]| + |Concat(xss[1..])|
  {
  }

  /** The placement after one block, at the positions its strategy chose. */
  function PlaceOne(pl: Placement, block: seq<int>, hours: int, lunch: int, probe: seq<nat>, pick: seq<nat>): (r: Placement)
    requires hours > 0 && 1 <= |block| <= |FreeList(pl)|
    ensures |r| == |pl|
  {
    var s := ChooseStrategy(pl, |block|, hours, lunch, probe, pick);
    StrategyFresh(pl, |block|, hours, lunch, probe, pick);
    Write(pl, Positions(s, |block|), block)
  }

  lemma PlaceOneFacts(pl: Placement, block: seq<int>, hours: int, lunch: int, probe: seq<nat>, pick: seq<nat>)
    requires hours > 0 && 1 <= |block| <= |FreeList(pl)|
    ensures |FreeList(PlaceOne(pl, block, hours, lunch, probe, pick))| == |FreeList(pl)| - |block|
    ensures Extends(pl, PlaceOne(pl, block, hours, lunch, probe, pick))
    ensures Placed(PlaceOne(pl, block, hours, lunch, probe, pick), ChooseStrategy(pl, |block|, hours, lunch, probe, pick), block)
  {
    var s := ChooseStrategy(pl, |block|, hours, lunch, probe, pick);
    StrategyFresh(pl, |block|, hours, lunch, probe, pick);
    var ps := Positions(s, |block|);
    WriteFreeCount(pl, ps, block);
    WriteAt(pl, ps, block);
    WriteExtends(pl, ps, block);
  }

  lemma PlaceOneInv(pl: Placement, block: seq<int>, hours: int, lunch: int, probe: seq<nat>, pick: seq<nat>, later: seq<int>, T: nat)
    requires hours > 0 && 1 <= |block| <= |FreeList(pl)|
    requires Inv(pl, block + later, T)
    ensures Inv(PlaceOne(pl, block, hours, lunch, probe, pick), later, T)
  {
    var s := ChooseStrategy(pl, |block|, hours, lunch, probe, pick);
    StrategyFresh(pl, |block|, hours, lunch, probe, pick);
    WriteInv(pl, Positions(s, |block|), block, later, T);
  }

  /** `for block in blocks`, block i using the i-th probe and pick draws; the placement and the strategies used. */
  function PlaceBlocks(pl: Placement, blocks: seq<seq<int>>, hours: int, lunch: int, probes: seq<seq<nat>>, picks: seq<seq<nat>>, i: nat): (r: (Placement, seq<Strategy>))
    requires |blocks| > 0 ==> hours > 0
    requires forall j :: 0 <= j < |blocks| ==> |blocks[j]| >= 1
    requires |Concat(blocks)| <= |FreeList(pl)|
    ensures |r.0| == |pl| && |r.1| == |blocks|
    decreases |blocks|
  {
    if |blocks| == 0 then (pl, [])
    else
      var block := blocks[0];
      ConcatLength(blocks);
      var probe := AtSeq(probes, i);
      var pick := AtSeq(picks, i);
      PlaceOneFacts(pl, block, hours, lunch, probe, pick);
      var rest := PlaceBlocks(PlaceOne(pl, block, hours, lunch, probe, pick), blocks[1..], hours, lunch, probes, picks, i + 1);
      (rest.0, [ChooseStrategy(pl, |block|, hours, lunch, probe, pick)] + rest.1)
  }

  lemma PlaceBlocksUnfold(pl: Placement, blocks: seq<seq<int>>, hours: int, lunch: int, probes: seq<seq<nat>>, picks: seq<seq<nat>>, i: nat)
    requires |blocks| > 0 && hours > 0
    requires forall j :: 0 <= j < |blocks| ==> |blocks[j]| >= 1
    requires |Concat(blocks)| <= |FreeList(pl)|
    ensures 1 <= |blocks[0]| <= |FreeList(pl)|
    ensures |Concat(blocks[1..])| <= |FreeList(PlaceOne(pl, blocks[0], hours, lunch, AtSeq(probes, i), AtSeq(picks, i)))|
    ensures PlaceBlocks(pl, blocks, hours, lunch, probes, picks, i).0
      == PlaceBlocks(PlaceOne(pl, blocks[0], hours, lunch, AtSeq(probes, i), AtSeq(picks, i)), blocks[1..], hours, lunch, probes, picks, i + 1).0
    ensures PlaceBlocks(pl, blocks, hours, lunch, probes, picks, i).1
      == [ChooseStrategy(pl, |blocks[0]|, hours, lunch, AtSeq(probes, i), AtSeq(picks, i))]
         + PlaceBlocks(PlaceOne(pl, blocks[0], hours, lunch, AtSeq(probes, i), AtSeq(picks, i)), blocks[1..], hours, lunch, probes, picks, i + 1).1
  {
    ConcatLength(blocks);
    PlaceOneFacts(pl, blocks[0], hours, lunch, AtSeq(probes, i), AtSeq(picks, i));
  }

  lemma ConcatSplit(blocks: seq<seq<int>>, rest: seq<int>)
    requires |blocks| > 0
    ensures Concat(blocks) + rest == blocks[0] + (Concat(blocks[1..]) + rest)
  {
  }

  /** Placing the blocks uses up exactly their offsets from the pending ones. */
  lemma {:induction false} PlaceBlocksInv(pl: Placement, blocks: seq<seq<int>>, hours: int, lunch: int, probes: seq<seq<nat>>, picks: seq<seq<nat>>, i: nat, rest: seq<int>, T: nat)
    requires |blocks| > 0 ==> hours > 0
    requires forall j :: 0 <= j < |blocks| ==> |blocks[j]| >= 1
    requires |Concat(blocks)| <= |FreeList(pl)|
    requires Inv(pl, Concat(blocks) + rest, T)
    ensures Inv(PlaceBlocks(pl, blocks, hours, lunch, probes, picks, i).0, rest, T)
    decreases |blocks|
  {
    if |blocks| > 0 {
      var block := blocks[0];
      var probe := AtSeq(probes, i);
      var pick := AtSeq(picks, i);
      PlaceBlocksUnfold(pl, blocks, hours, lunch, probes, picks, i);
      ConcatSplit(blocks, rest);
      PlaceOneInv(pl, block, hours, lunch, probe, pick, Concat(blocks[1..]) + rest, T);
      PlaceBlocksInv(PlaceOne(pl, block, hours, lunch, probe, pick), blocks[1..], hours, lunch, probes, picks, i + 1, rest, T);
    } else {
      assert Concat(blocks) + rest == rest;
    }
  }

  lemma ExtendsTrans(a: Placement, b: Placement, c: Placement)
    requires Extends(a, b) && Extends(b, c)
    ensures Extends(a, c)
  {
  }

  lemma PlacedKept(pl: Placement, pl2: Placement, s: Strategy, block: seq<int>)
    requires Placed(pl, s, block) && Extends(pl, pl2)
    ensures Placed(pl2, s, block)
  {
  }

  /**
   * Every block ends up at the positions of its strategy, offset k of the
   * block at the k-th position, and nothing placed before is moved.
   */
  lemma {:induction false} PlaceBlocksExtends(pl: Placement, blocks: seq<seq<int>>, hours: int, lunch: int, probes: seq<seq<nat>>, picks: seq<seq<nat>>, i: nat)
    requires |blocks| > 0 ==> hours > 0
    requires forall j :: 0 <= j < |blocks| ==> |blocks[j]| >= 1
    requires |Concat(blocks)| <= |FreeList(pl)|
    ensures Extends(pl, PlaceBlocks(pl, blocks, hours, lunch, probes, picks, i).0)
    decreases |blocks|
  {
    if |blocks| > 0 {
      var pl' := PlaceOne(pl, blocks[0], hours, lunch, AtSeq(probes, i), AtSeq(picks, i));
      PlaceBlocksUnfold(pl, blocks, hours, lunch, probes, picks, i);
      PlaceOneFacts(pl, blocks[0], hours, lunch, AtSeq(probes, i), AtSeq(picks, i));
      PlaceBlocksExtends(pl', blocks[1..], hours, lunch, probes, picks, i + 1);
      ExtendsTrans(pl, pl', PlaceBlocks(pl', blocks[1..], hours, lunch, probes, picks, i + 1).0);
    }
  }

  /** Every block j sits at the positions of strategy j. */
  ghost predicate AllPlaced(pl: Placement, ss: seq<Strategy>, blocks: seq<seq<int>>) {
    |ss| == |blocks| && forall j {:trigger Placed(pl, ss[j], blocks[j])} :: 0 <= j < |blocks| ==> Placed(pl, ss[j], blocks[j])
  }

  lemma AllPlacedCons(pl: Placement, s: Strategy, ss: seq<Strategy>, blocks: seq<seq<int>>)
    requires |blocks| > 0 && Placed(pl, s, blocks[0]) && AllPlaced(pl, ss, blocks[1..])
    ensures AllPlaced(pl, [s] + ss, blocks)
  {
    forall j | 1 <= j < |blocks| ensures Placed(pl, ([s] + ss)[j], blocks[j]) {
      assert ([s] + ss)[j] == ss[j - 1] && blocks[j] == blocks[1..][j - 1];
    }
  }

  /** The first block stays where the first step put it, whatever the later steps do. */
  lemma PlaceBlocksHead(pl: Placement, blocks: seq<seq<int>>, hours: int, lunch: int, probes: seq<seq<nat>>, picks: seq<seq<nat>>, i: nat)
    requires |blocks| > 0 && hours > 0
    requires forall j :: 0 <= j < |blocks| ==> |blocks[j]| >= 1
    requires |Concat(blocks)| <= |FreeList(pl)|
    ensures |Concat(blocks[1..])| <= |FreeList(PlaceOne(pl, blocks[0], hours, lunch, AtSeq(probes, i), AtSeq(picks, i)))|
    ensures Placed(PlaceBlocks(pl, blocks, hours, lunch, probes, picks, i).0, PlaceBlocks(pl, blocks, hours, lunch, probes, picks, i).1[0], blocks[0])
    ensures PlaceBlocks(pl, blocks, hours, lunch, probes, picks, i).0
      == PlaceBlocks(PlaceOne(pl, blocks[0], hours, lunch, AtSeq(probes, i), AtSeq(picks, i)), blocks[1..], hours, lunch, probes, picks, i + 1).0
    ensures PlaceBlocks(pl, blocks, hours, lunch, probes, picks, i).1[1..]
      == PlaceBlocks(PlaceOne(pl, blocks[0], hours, lunch, AtSeq(probes, i), AtSeq(picks, i)), blocks[1..], hours, lunch, probes, picks, i + 1).1
  {
    var probe := AtSeq(probes, i);
    var pick := AtSeq(picks, i);
    var pl' := PlaceOne(pl, blocks[0], hours, lunch, probe, pick);
    PlaceBlocksUnfold(pl, blocks, hours, lunch, probes, picks, i);
    PlaceOneFacts(pl, blocks[0], hours, lunch, probe, pick);
    PlaceBlocksExtends(pl', blocks[1..], hours, lunch, probes, picks, i + 1);
    PlacedKept(pl', PlaceBlocks(pl', blocks[1..], hours, lunch, probes, picks, i + 1).0, ChooseStrategy(pl, |blocks[0]|, hours, lunch, probe, pick), blocks[0]);
  }

  lemma AllPlacedCons2(pl: Placement, ss: seq<Strategy>, blocks: seq<seq<int>>)
    requires |blocks| > 0 && |ss| == |blocks| && Placed(pl, ss[0], blocks[0]) && AllPlaced(pl, ss[1..], blocks[1..])
    ensures AllPlaced(pl, ss, blocks)
  {
    assert ss == [ss[0]] + ss[1..];
    AllPlacedCons(pl, ss[0], ss[1..], blocks);
  }

  lemma {:induction false} PlaceBlocksPlaced(pl: Placement, blocks: seq<seq<int>>, hours: int, lunch: int, probes: seq<seq<nat>>, picks: seq<seq<nat>>, i: nat)
    requires |blocks| > 0 ==> hours > 0
    requires forall j :: 0 <= j < |blocks| ==> |blocks[j]| >= 1
    requires |Concat(blocks)| <= |FreeList(pl)|
    ensures AllPlaced(PlaceBlocks(pl, blocks, hours, lunch, probes, picks, i).0, PlaceBlocks(pl, blocks, hours, lunch, probes, picks, i).1, blocks)
    decreases |blocks|
  {
    if |blocks| > 0 {
      var pl' := PlaceOne(pl, blocks[0], hours, lunch, AtSeq(probes, i), AtSeq(picks, i));
      PlaceBlocksHead(pl, blocks, hours, lunch, probes, picks, i);
      PlaceBlocksPlaced(pl', blocks[1..], hours, lunch, probes, picks, i + 1);
      var r := PlaceBlocks(pl, blocks, hours, lunch, probes, picks, i);
      AllPlacedCons2(r.0, r.1, blocks);
    }
  }

  /** A block is fitted only where `find_block_position`'s test allows it. */
  lemma {:induction false} PlaceBlocksFitted(pl: Placement, blocks: seq<seq<int>>, hours: int, lunch: int, probes: seq<seq<nat>>, picks: seq<seq<nat>>, i: nat)
    requires |blocks| > 0 ==> hours > 0
    requires forall j :: 0 <= j < |blocks| ==> |blocks[j]| >= 1
    requires |Concat(blocks)| <= |FreeList(pl)|
    ensures forall j :: 0 <= j < |blocks| && PlaceBlocks(pl, blocks, hours, lunch, probes, picks, i).1[j].Fitted? ==>
      FitsDay(PlaceBlocks(pl, blocks, hours, lunch, probes, picks, i).1[j].start, |blocks[j]|, hours, lunch)
    decreases |blocks|
  {
    if |blocks| > 0 {
      var r := PlaceBlocks(pl, blocks, hours, lunch, probes, picks, i);
      var block := blocks[0];
      ConcatLength(blocks);
      var probe := AtSeq(probes, i);
      var pick := AtSeq(picks, i);
      PlaceOneFacts(pl, block, hours, lunch, probe, pick);
      StrategyFits(pl, |block|, hours, lunch, probe, pick);
      var s := ChooseStrategy(pl, |block|, hours, lunch, probe, pick);
      var pl' := PlaceOne(pl, block, hours, lunch, probe, pick);
      var tail := PlaceBlocks(pl', blocks[1..], hours, lunch, probes, picks, i + 1);
      assert r.1 == [s] + tail.1;
      PlaceBlocksFitted(pl', blocks[1..], hours, lunch, probes, picks, i + 1);
      forall j | 1 <= j < |blocks| && r.1[j].Fitted? ensures FitsDay(r.1[j].start, |blocks[j]|, hours, lunch) {
        assert r.1[j] == tail.1[j - 1] && blocks[j] == blocks[1..][j - 1];
      }
    }
  }

  // ---------------------------------------------------------------------
  // The whole construction (`Gene.__init__`)
  // ---------------------------------------------------------------------

  /** The random draws `Gene.__init__` makes, in the order it makes them. */
  datatype GeneDraws = GeneDraws(
    blockOrder: seq<nat>,   // random.shuffle(blocks)
    singleOrder: seq<nat>,  // random.shuffle(singles)
    probes: seq<seq<nat>>,  // one candidate shuffle per block
    picks: seq<seq<nat>>,   // one run of random.choice draws per block
    fill: seq<nat>,         // random.shuffle(remaining_positions)
    leftover: seq<nat>)     // random.shuffle(remaining_offsets)

  /** The values the construction goes through, kept so that lemmas can speak of them. */
  datatype Build = Build(
    blocks: seq<seq<int>>,
    singles: seq<int>,
    afterBlocks: Placement,
    strategies: seq<Strategy>,
    afterSingles: Placement,
    placement: Placement,
    slotno: seq<int>)

  /** A gene: the pool index taught in each slot of one group's week. */
  datatype Gene = Gene(slotno: seq<int>)

  /** `[None] * total_slots`. */
  function EmptyWeek(T: nat): (r: Placement)
    ensures |r| == T && forall p :: 0 <= p < T ==> r[p].None?
  {
    seq(T, p => None)
  }

  /** The offsets below n that no position holds, ascending (`remaining_offsets` before its shuffle). */
  function Unplaced(pl: Placement, n: nat): (r: seq<int>)
    ensures forall x :: x in r <==> 0 <= x < n && Some(x) !in pl
    decreases n
  {
    if n == 0 then [] else Unplaced(pl, n - 1) + (if Some(n - 1) in pl then [] else [n - 1])
  }

  lemma {:induction false} BlocksNonEmpty(bs: seq<Bucket>)
    ensures forall b :: b in Blocks(bs) ==> |b| >= 1
    decreases |bs|
  {
    if |bs| > 0 {
      BlocksNonEmpty(bs[1..]);
    }
  }

  /** The blocks and singles of a week together list its offsets 0 .. T-1. */
  lemma PendingIsWeek(pool: seq<Option<Lesson>>, base: int, T: nat, bs: seq<Bucket>, blocks: seq<seq<int>>, singles: seq<int>, dr: GeneDraws)
    requires bs == Buckets(pool, base, T)
    requires blocks == Shuffle(Blocks(bs), dr.blockOrder) && singles == Shuffle(Singles(bs), dr.singleOrder)
    ensures multiset(Concat(blocks) + singles) == multiset(Range(0, T))
  {
    BucketsOffsets(pool, base, T);
    BlocksAndSingles(bs);
    ConcatDraw(Blocks(bs), dr.blockOrder);
  }

  /** A list with the multiset of 0 .. T-1 holds each of them exactly once. */
  lemma WeekList(pending: seq<int>, T: nat)
    requires multiset(pending) == multiset(Range(0, T))
    ensures |pending| == T && NoDups(pending)
    ensures forall i :: 0 <= i < |pending| ==> 0 <= pending[i] < T
  {
    var week := Range(0, T);
    RangeNoDups(0, T);
    MultisetBoundNoDups(pending, week);
    forall i | 0 <= i < |pending| ensures 0 <= pending[i] < T {
      assert pending[i] in multiset(week);
    }
    assert |pending| == |multiset(pending)|;
  }

  /** Offsets that list the week once each are a valid start for an empty week. */
  lemma EmptyWeekInv(pending: seq<int>, T: nat)
    requires |pending| == T && NoDups(pending)
    requires forall i :: 0 <= i < |pending| ==> 0 <= pending[i] < T
    ensures Inv(EmptyWeek(T), pending, T)
  {
    FreeUpToEmpty(EmptyWeek(T), T);
  }

  lemma ShuffledBlocksNonEmpty(bs: seq<Bucket>, blocks: seq<seq<int>>, d: seq<nat>)
    requires blocks == Shuffle(Blocks(bs), d)
    ensures forall j :: 0 <= j < |blocks| ==> |blocks[j]| >= 1
  {
    BlocksNonEmpty(bs);
    forall j | 0 <= j < |blocks| ensures |blocks[j]| >= 1 {
      assert blocks[j] in multiset(Blocks(bs));
    }
  }

  /** `blocks` after `random.shuffle(blocks)`: the lab subjects' offset lists in random order. */
  function WeekBlocks(pool: seq<Option<Lesson>>, base: int, T: nat, dr: GeneDraws): seq<seq<int>> {
    Shuffle(Blocks(Buckets(pool, base, T)), dr.blockOrder)
  }

  /** `singles` after `random.shuffle(singles)`. */
  function WeekSingles(pool: seq<Option<Lesson>>, base: int, T: nat, dr: GeneDraws): seq<int> {
    Shuffle(Singles(Buckets(pool, base, T)), dr.singleOrder)
  }

  /** The block loop's preconditions hold for the week's shuffled blocks. */
  lemma Setup(pool: seq<Option<Lesson>>, base: int, days: nat, hours: nat, T: nat, dr: GeneDraws)
    requires T == days * hours
    ensures var blocks := WeekBlocks(pool, base, T, dr);
      && (forall j :: 0 <= j < |blocks| ==> |blocks[j]| >= 1)
      && (|blocks| > 0 ==> hours > 0)
      && |Concat(blocks)| <= |FreeList(EmptyWeek(T))|
  {
    var blocks := WeekBlocks(pool, base, T, dr);
    SetupInv(pool, base, T, dr);
    ShuffledBlocksNonEmpty(Buckets(pool, base, T), blocks, dr.blockOrder);
    if |blocks| > 0 {
      ConcatLength(blocks);
      assert hours != 0;
    }
  }

  /** The block loop starts from a valid state: every offset of the week is pending and no position is taken. */
  lemma SetupInv(pool: seq<Option<Lesson>>, base: int, T: nat, dr: GeneDraws)
    ensures |Concat(WeekBlocks(pool, base, T, dr)) + WeekSingles(pool, base, T, dr)| == T == |FreeList(EmptyWeek(T))|
    ensures Inv(EmptyWeek(T), Concat(WeekBlocks(pool, base, T, dr)) + WeekSingles(pool, base, T, dr), T)
  {
    var pending := Concat(WeekBlocks(pool, base, T, dr)) + WeekSingles(pool, base, T, dr);
    PendingIsWeek(pool, base, T, Buckets(pool, base, T), WeekBlocks(pool, base, T, dr), WeekSingles(pool, base, T, dr), dr);
    WeekList(pending, T);
    EmptyWeekInv(pending, T);
  }

  /** `remaining_positions` after its shuffle: the free positions in random order. */
  function ShuffledFree(pl: Placement, d: seq<nat>): (r: seq<int>)
    ensures |r| == |FreeList(pl)| && Fresh(pl, r)
    ensures forall i :: 0 <= i < |r| ==> 0 <= r[i] < |pl|
  {
    var r := Shuffle(FreeList(pl), d);
    forall i | 0 <= i < |r| ensures IsFree(pl, r[i]) {
      assert r[i] in multiset(FreeList(pl));
    }
    r
  }

  /** The singles go to the free positions in random order, as many as both lists allow (`zip`). */
  function FillSingles(pl: Placement, singles: seq<int>, fill: seq<nat>): (r: Placement)
    ensures |r| == |pl|
  {
    Write(pl, ShuffledFree(pl, fill), singles)
  }

  /** Offsets not yet placed go, shuffled, to the still free positions in ascending order. */
  function FillLeftovers(pl: Placement, leftover: seq<nat>): (r: Placement)
    ensures |r| == |pl|
  {
    Write(pl, FreeList(pl), Shuffle(Unplaced(pl, |pl|), leftover))
  }

  /** `slotno[j] = slot_base_index + local_offset`, a free position j standing for offset j. */
  function SlotNumbers(pl: Placement, base: int): (r: seq<int>)
    ensures |r| == |pl|
  {
    seq(|pl|, j requires 0 <= j < |pl| => base + (if pl[j].Some? then pl[j].value else j))
  }

  /** `Gene(group_index, config)`, with every intermediate value. */
  function Construct(pool: seq<Option<Lesson>>, g: nat, days: nat, hours: nat, lunch: int, dr: GeneDraws): (r: Build)
    ensures |r.slotno| == days * hours
  {
    var T: nat := days * hours;
    var base := g * T;
    var blocks := WeekBlocks(pool, base, T, dr);
    Setup(pool, base, days, hours, T, dr);
    var placed := PlaceBlocks(EmptyWeek(T), blocks, hours, lunch, dr.probes, dr.picks, 0);
    var pl2 := FillSingles(placed.0, WeekSingles(pool, base, T, dr), dr.fill);
    var pl3 := FillLeftovers(pl2, dr.leftover);
    Build(blocks, WeekSingles(pool, base, T, dr), placed.0, placed.1, pl2, pl3, SlotNumbers(pl3, base))
  }

  /** The gene of group g. */
  function NewGene(pool: seq<Option<Lesson>>, g: nat, days: nat, hours: nat, lunch: int, dr: GeneDraws): (r: Gene)
    ensures |r.slotno| == days * hours
  {
    Gene(Construct(pool, g, days, hours, lunch, dr).slotno)
  }

  lemma FillSinglesInv(pl: Placement, singles: seq<int>, fill: seq<nat>, T: nat)
    requires Inv(pl, singles, T)
    ensures Inv(FillSingles(pl, singles, fill), [], T)
  {
    var ps := ShuffledFree(pl, fill);
    assert singles + [] == singles;
    WriteInv(pl, ps, singles, [], T);
  }

  /** Once every position is taken, the leftover step changes nothing. */
  lemma FillLeftoversFull(pl: Placement, leftover: seq<nat>, T: nat)
    requires Inv(pl, [], T)
    ensures FillLeftovers(pl, leftover) == pl
    ensures forall p :: 0 <= p < T ==> pl[p].Some?
  {
    assert |FreeList(pl)| == 0;
  }

  /** The offsets a full week holds, position by position. */
  function Offsets(pl: Placement): (r: seq<int>)
    requires forall p :: 0 <= p < |pl| ==> pl[p].Some?
    ensures |r| == |pl| && forall p :: 0 <= p < |pl| ==> Some(r[p]) == pl[p]
  {
    seq(|pl|, p requires 0 <= p < |pl| => pl[p].value)
  }

  lemma OffsetsDistinct(pl: Placement, T: nat)
    requires Inv(pl, [], T)
    requires forall p :: 0 <= p < T ==> pl[p].Some?
    ensures NoDups(Offsets(pl)) && forall p :: 0 <= p < T ==> 0 <= Offsets(pl)[p] < T
  {
  }

  lemma SlotNumbersOfFull(pl: Placement, base: int)
    requires forall p :: 0 <= p < |pl| ==> pl[p].Some?
    ensures SlotNumbers(pl, base) == Shift(Offsets(pl), base)
  {
  }

  /** A week whose every position holds a distinct offset numbers its slots base .. base+T-1 once each. */
  lemma FullWeekPermutation(pl: Placement, base: int, T: nat)
    requires |pl| == T && forall p :: 0 <= p < T ==> pl[p].Some?
    requires NoDups(Offsets(pl)) && forall p :: 0 <= p < T ==> 0 <= Offsets(pl)[p] < T
    ensures multiset(SlotNumbers(pl, base)) == multiset(Range(base, base + T))
  {
    var values := Offsets(pl);
    ShiftedPermutation(values, base, T);
    SlotNumbersOfFull(pl, base);
  }

  /** Distinct offsets 0 .. T-1, shifted by base, are base .. base+T-1 once each. */
  lemma ShiftedPermutation(values: seq<int>, base: int, T: nat)
    requires |values| == T && NoDups(values)
    requires forall p :: 0 <= p < |values| ==> 0 <= values[p] < T
    ensures multiset(Shift(values, base)) == multiset(Range(base, base + T))
  {
    DistinctInRangeIsPermutation(values, 0, T);
    ShiftPreservesPermutation(values, Range(0, T), base);
    ShiftRangeFromZero(T, base);
  }

  lemma ShiftRangeFromZero(T: nat, base: int)
    ensures Shift(Range(0, T), base) == Range(base, base + T)
  {
    var a, b := Shift(Range(0, T), base), Range(base, base + T);
    forall i | 0 <= i < |a|
      ensures a[i] == b[i]
    {
    }
  }

  /** After the blocks, the week holds distinct offsets and exactly the singles are still to place. */
  lemma PlacedInv(pool: seq<Option<Lesson>>, base: int, days: nat, hours: nat, T: nat, lunch: int, dr: GeneDraws)
    requires T == days * hours
    ensures var blocks := WeekBlocks(pool, base, T, dr);
      && (forall j :: 0 <= j < |blocks| ==> |blocks[j]| >= 1)
      && (|blocks| > 0 ==> hours > 0)
      && |Concat(blocks)| <= |FreeList(EmptyWeek(T))|
      && Inv(PlaceBlocks(EmptyWeek(T), blocks, hours, lunch, dr.probes, dr.picks, 0).0, WeekSingles(pool, base, T, dr), T)
  {
    var blocks := WeekBlocks(pool, base, T, dr);
    Setup(pool, base, days, hours, T, dr);
    SetupInv(pool, base, T, dr);
    PlaceBlocksInv(EmptyWeek(T), blocks, hours, lunch, dr.probes, dr.picks, 0, WeekSingles(pool, base, T, dr), T);
  }

  /** Writing the singles to the free positions only fills positions that were empty. */
  lemma FillSinglesExtends(pl: Placement, singles: seq<int>, fill: seq<nat>, T: nat)
    requires Inv(pl, singles, T)
    ensures Extends(pl, FillSingles(pl, singles, fill))
  {
    WriteExtends(pl, ShuffledFree(pl, fill), singles);
  }

  /** After the singles, every position of the week holds a distinct offset of the week. */
  lemma {:induction false} ConstructFull(pool: seq<Option<Lesson>>, g: nat, days: nat, hours: nat, lunch: int, dr: GeneDraws)
    ensures Full(Construct(pool, g, days, hours, lunch, dr).placement, days * hours)
    ensures Construct(pool, g, days, hours, lunch, dr).placement == Construct(pool, g, days, hours, lunch, dr).afterSingles
  {
    var T: nat := days * hours;
    var base := g * T;
    var singles := WeekSingles(pool, base, T, dr);
    PlacedInv(pool, base, days, hours, T, lunch, dr);
    var placed := PlaceBlocks(EmptyWeek(T), WeekBlocks(pool, base, T, dr), hours, lunch, dr.probes, dr.picks, 0);
    var pl2 := FillSingles(placed.0, singles, dr.fill);
    FillSinglesInv(placed.0, singles, dr.fill, T);
    FillLeftoversFull(pl2, dr.leftover, T);
    var b := Construct(pool, g, days, hours, lunch, dr);
    assert b.afterSingles == pl2 && b.placement == FillLeftovers(pl2, dr.leftover);
  }

  /** Every position of the week holds an offset, and the offsets are distinct offsets of the week. */
  ghost predicate Full(pl: Placement, T: nat) {
    Inv(pl, [], T) && forall p :: 0 <= p < T ==> pl[p].Some?
  }

  lemma FullWeekSlots(slots: seq<int>, pl: Placement, base: int, T: nat)
    requires Full(pl, T)
    requires slots == SlotNumbers(pl, base)
    ensures multiset(slots) == multiset(Range(base, base + T))
  {
    OffsetsDistinct(pl, T);
    FullWeekPermutation(pl, base, T);
  }

  lemma PlacementPermutation(pool: seq<Option<Lesson>>, g: nat, days: nat, hours: nat, lunch: int, dr: GeneDraws, T: nat, base: int)
    requires T == days * hours && base == g * T
    ensures multiset(SlotNumbers(Construct(pool, g, days, hours, lunch, dr).placement, base)) == multiset(Range(base, base + T))
  {
    var pl := Construct(pool, g, days, hours, lunch, dr).placement;
    ConstructFull(pool, g, days, hours, lunch, dr);
    FullWeekSlots(SlotNumbers(pl, base), pl, base, T);
  }

  lemma ConstructSlots(pool: seq<Option<Lesson>>, g: nat, days: nat, hours: nat, lunch: int, dr: GeneDraws, T: nat, base: int)
    requires T == days * hours && base == g * T
    ensures NewGene(pool, g, days, hours, lunch, dr).slotno == SlotNumbers(Construct(pool, g, days, hours, lunch, dr).placement, base)
  {
  }

  /** The pool indices of group g's week of T slots: `g * T .. g * T + T - 1`. */
  function GroupSlots(g: nat, T: nat): seq<int> {
    Range(g * T, g * T + T)
  }

  lemma GroupSlotsAt(g: nat, T: nat, base: int)
    requires base == g * T
    ensures GroupSlots(g, T) == Range(base, base + T)
  {
  }

  lemma GenePermutationAt(pool: seq<Option<Lesson>>, g: nat, days: nat, hours: nat, lunch: int, dr: GeneDraws, T: nat)
    requires T == days * hours
    ensures multiset(NewGene(pool, g, days, hours, lunch, dr).slotno) == multiset(GroupSlots(g, T))
  {
    var base := g * T;
    ConstructSlots(pool, g, days, hours, lunch, dr, T, base);
    PlacementPermutation(pool, g, days, hours, lunch, dr, T, base);
    GroupSlotsAt(g, T, base);
  }

  /**
   * The gene of group g is a permutation of the group's pool indices
   * `g * T .. g * T + T - 1`, for every outcome of the random draws.
   */
  lemma GeneIsPermutation(pool: seq<Option<Lesson>>, g: nat, days: nat, hours: nat, lunch: int, dr: GeneDraws)
    ensures multiset(NewGene(pool, g, days, hours, lunch, dr).slotno) == multiset(GroupSlots(g, days * hours))
  {
    GenePermutationAt(pool, g, days, hours, lunch, dr, days * hours);
  }

  // ---------------------------------------------------------------------
  // Lab blocks in the finished gene
  // ---------------------------------------------------------------------

  lemma {:induction false} ConstructExtends(pool: seq<Option<Lesson>>, g: nat, days: nat, hours: nat, lunch: int, dr: GeneDraws)
    ensures Extends(Construct(pool, g, days, hours, lunch, dr).afterBlocks, Construct(pool, g, days, hours, lunch, dr).placement)
  {
    var T: nat := days * hours;
    var base := g * T;
    var singles := WeekSingles(pool, base, T, dr);
    PlacedInv(pool, base, days, hours, T, lunch, dr);
    var placed := PlaceBlocks(EmptyWeek(T), WeekBlocks(pool, base, T, dr), hours, lunch, dr.probes, dr.picks, 0);
    FillSinglesExtends(placed.0, singles, dr.fill, T);
    ConstructFull(pool, g, days, hours, lunch, dr);
    var b := Construct(pool, g, days, hours, lunch, dr);
    assert b.afterBlocks == placed.0 && b.placement == FillSingles(placed.0, singles, dr.fill);
  }

  lemma AllPlacedKept(pl: Placement, pl2: Placement, ss: seq<Strategy>, blocks: seq<seq<int>>)
    requires AllPlaced(pl, ss, blocks) && Extends(pl, pl2)
    ensures AllPlaced(pl2, ss, blocks)
  {
    forall j | 0 <= j < |blocks| ensures Placed(pl2, ss[j], blocks[j]) {
      PlacedKept(pl, pl2, ss[j], blocks[j]);
    }
  }

  /** In the finished week every block sits at its strategy's positions, and fitted blocks pass the day test. */
  lemma {:induction false} ConstructPlaced(pool: seq<Option<Lesson>>, g: nat, days: nat, hours: nat, lunch: int, dr: GeneDraws)
    ensures AllPlaced(Construct(pool, g, days, hours, lunch, dr).placement, Construct(pool, g, days, hours, lunch, dr).strategies, Construct(pool, g, days, hours, lunch, dr).blocks)
    ensures forall j :: 0 <= j < |Construct(pool, g, days, hours, lunch, dr).blocks| && Construct(pool, g, days, hours, lunch, dr).strategies[j].Fitted? ==>
      hours > 0 && FitsDay(Construct(pool, g, days, hours, lunch, dr).strategies[j].start, |Construct(pool, g, days, hours, lunch, dr).blocks[j]|, hours, lunch)
  {
    var T: nat := days * hours;
    var base := g * T;
    var blocks := WeekBlocks(pool, base, T, dr);
    Setup(pool, base, days, hours, T, dr);
    PlaceBlocksPlaced(EmptyWeek(T), blocks, hours, lunch, dr.probes, dr.picks, 0);
    PlaceBlocksFitted(EmptyWeek(T), blocks, hours, lunch, dr.probes, dr.picks, 0);
    ConstructExtends(pool, g, days, hours, lunch, dr);
    var b := Construct(pool, g, days, hours, lunch, dr);
    AllPlacedKept(b.afterBlocks, b.placement, b.strategies, b.blocks);
  }

  /** The day of slot p of the week, and its hour within the day. */
  function DayOf(p: int, hours: int): int
    requires hours > 0
  {
    p / hours
  }

  function HourOf(p: int, hours: int): int
    requires hours > 0
  {
    p % hours
  }

  /**
   * Slots `start .. start+m-1` are consecutive hours of one day, end
   * before the day's last hour, and do not run from before lunch to after it.
   */
  predicate DayRun(start: int, m: nat, hours: int, lunch: int)
    requires hours > 0
  {
    && (forall p :: start <= p < start + m ==> DayOf(p, hours) == DayOf(start, hours) && HourOf(p, hours) == HourOf(start, hours) + (p - start))
    && HourOf(start, hours) + m < hours
    && (HourOf(start, hours) >= lunch || HourOf(start, hours) + m <= lunch)
  }

  /** What `find_block_position`'s test means for the slots of the block. */
  lemma FitsDayRun(start: int, m: nat, hours: int, lunch: int)
    requires hours > 0 && FitsDay(start, m, hours, lunch)
    ensures DayRun(start, m, hours, lunch)
  {
    var dh := start % hours;
    var day := start / hours;
    assert start == day * hours + dh;
    forall p | start <= p < start + m ensures DayOf(p, hours) == day && HourOf(p, hours) == dh + (p - start) {
      DivModUnique(p, hours, day, dh + (p - start));
    }
  }

  /** A placed block, read through the slot numbers. */
  lemma PlacedInSlots(pl: Placement, s: Strategy, block: seq<int>, base: int, T: nat, slots: seq<int>)
    requires Placed(pl, s, block) && |pl| == T && slots == SlotNumbers(pl, base)
    ensures |Positions(s, |block|)| == |block|
    ensures forall k :: 0 <= k < |block| ==> 0 <= Positions(s, |block|)[k] < T && slots[Positions(s, |block|)[k]] == base + block[k]
  {
  }

  /**
   * Block j of the finished gene: its k-th slot holds pool index
   * `base + block[k]`, and a block placed by `find_block_position` fills
   * consecutive hours of one day without crossing lunch.
   */
  lemma BlockInGene(pool: seq<Option<Lesson>>, g: nat, days: nat, hours: nat, lunch: int, dr: GeneDraws, T: nat, base: int, j: nat)
    requires T == days * hours && base == g * T
    requires j < |Construct(pool, g, days, hours, lunch, dr).blocks|
    ensures var b := Construct(pool, g, days, hours, lunch, dr);
      var ps := Positions(b.strategies[j], |b.blocks[j]|);
      && |ps| == |b.blocks[j]|
      && forall k :: 0 <= k < |ps| ==> 0 <= ps[k] < T && NewGene(pool, g, days, hours, lunch, dr).slotno[ps[k]] == base + b.blocks[j][k]
    ensures var b := Construct(pool, g, days, hours, lunch, dr);
      b.strategies[j].Fitted? ==> hours > 0 && DayRun(b.strategies[j].start, |b.blocks[j]|, hours, lunch)
  {
    var b := Construct(pool, g, days, hours, lunch, dr);
    ConstructPlaced(pool, g, days, hours, lunch, dr);
    ConstructFull(pool, g, days, hours, lunch, dr);
    ConstructSlots(pool, g, days, hours, lunch, dr, T, base);
    PlacedInSlots(b.placement, b.strategies[j], b.blocks[j], base, T, NewGene(pool, g, days, hours, lunch, dr).slotno);
    if b.strategies[j].Fitted? {
      FitsDayRun(b.strategies[j].start, |b.blocks[j]|, hours, lunch);
    }
  }

  lemma ConstructBlocks(pool: seq<Option<Lesson>>, g: nat, days: nat, hours: nat, lunch: int, dr: GeneDraws, T: nat, base: int)
    requires T == days * hours && base == g * T
    ensures Construct(pool, g, days, hours, lunch, dr).blocks == WeekBlocks(pool, base, T, dr)
    ensures Construct(pool, g, days, hours, lunch, dr).singles == WeekSingles(pool, base, T, dr)
  {
  }

  /** Each block is one bucket of a lab subject: exactly that subject's offsets. */
  lemma ShuffledBlockIsLab(pool: seq<Option<Lesson>>, base: int, T: nat, dr: GeneDraws, j: nat)
    requires j < |WeekBlocks(pool, base, T, dr)|
    ensures exists subject :: IsLab(subject) && forall o :: o in WeekBlocks(pool, base, T, dr)[j] <==> 0 <= o < T && KeyAt(pool, base, o) == Some(subject)
  {
    var bs := Buckets(pool, base, T);
    var blk := WeekBlocks(pool, base, T, dr)[j];
    assert blk in multiset(Blocks(bs));
    var j' :| 0 <= j' < |Blocks(bs)| && Blocks(bs)[j'] == blk;
    BlocksAreLabBuckets(bs, j');
    var i :| 0 <= i < |bs| && IsBlock(bs[i]) && Blocks(bs)[j'] == bs[i].offsets;
    BucketsGrouped(pool, base, T);
    assert Holds(bs[i], pool, base, T);
    var subject := bs[i].key.value;
    assert IsLab(subject);
  }

  /**
   * Each block of the gene is exactly the set of offsets of the week
   * whose lesson is one lab subject (a subject ending in `_lab`).
   */
  lemma BlockIsLabSubject(pool: seq<Option<Lesson>>, g: nat, days: nat, hours: nat, lunch: int, dr: GeneDraws, T: nat, base: int, j: nat)
    requires T == days * hours && base == g * T
    requires j < |Construct(pool, g, days, hours, lunch, dr).blocks|
    ensures exists subject :: IsLab(subject) && forall o :: o in Construct(pool, g, days, hours, lunch, dr).blocks[j] <==> 0 <= o < T && KeyAt(pool, base, o) == Some(subject)
  {
    ConstructBlocks(pool, g, days, hours, lunch, dr, T, base);
    ShuffledBlockIsLab(pool, base, T, dr, j);
  }
}
