/**
 * Shared vocabulary: an Option type, integer ranges, duplicate-freedom, and
 * the explicit model of the program's random choices.
 *
 * Every `random.shuffle` / `random.choice` of the program is replaced
 * by a sequence of natural-number draws: a choice from a list `xs` takes the
 * element at index `draw % |xs|` and removes it. `Draw(xs, k, d)` makes k such
 * choices, and a shuffle is `Draw(xs, |xs|, d)`. Every permutation of `xs` is
 * the result of some draw sequence, so a property proved for all draws holds
 * for every outcome of the program's random calls.
 */
module Common {

  datatype Option<+T> = None | Some(value: T)

  /** The integers lo, lo+1, ..., hi-1, i.e. Python's `range(lo, hi)`. */
  function Range(lo: int, hi: int): (r: seq<int>)
    ensures |r| == if lo <= hi then hi - lo else 0
    ensures forall i :: 0 <= i < |r| ==> r[i] == lo + i
    decreases hi - lo
  {
    if lo >= hi then [] else [lo] + Range(lo + 1, hi)
  }

  predicate NoDups<T(==)>(s: seq<T>) {
    forall i, j :: 0 <= i < j < |s| ==> s[i] != s[j]
  }

  predicate StrictlyIncreasing(s: seq<int>) {
    forall i, j :: 0 <= i < j < |s| ==> s[i] < s[j]
  }

  /** The i-th draw, or 0 once the draws are exhausted. */
  function At(d: seq<nat>, i: nat): nat {
    if i < |d| then d[i] else 0
  }

  /** The i-th draw sequence, or the empty one once they are exhausted. */
  function AtSeq(d: seq<seq<nat>>, i: nat): seq<nat> {
    if i < |d| then d[i] else []
  }

  function Rest(d: seq<nat>): seq<nat> {
    if |d| > 0 then d[1..] else []
  }

  function RemoveAt<T>(xs: seq<T>, i: nat): (r: seq<T>)
    requires i < |xs|
    ensures |r| == |xs| - 1
  {
    xs[..i] + xs[i+1..]
  }

  lemma RemoveAtFacts<T>(xs: seq<T>, i: nat)
    requires i < |xs|
    ensures multiset(xs) == multiset{xs[i]} + multiset(RemoveAt(xs, i))
    ensures forall x :: x in RemoveAt(xs, i) ==> x in xs
    ensures NoDups(xs) ==> xs[i] !in RemoveAt(xs, i) && NoDups(RemoveAt(xs, i))
  {
    var rest := RemoveAt(xs, i);
    assert xs == xs[..i] + [xs[i]] + xs[i+1..];
    forall x | x in rest ensures x in xs {
      var j :| 0 <= j < |rest| && rest[j] == x;
      if j < i { assert xs[j] == x; } else { assert xs[j + 1] == x; }
    }
    if NoDups(xs) {
      forall j | 0 <= j < |rest| ensures rest[j] != xs[i] {
        if j < i { assert rest[j] == xs[j]; } else { assert rest[j] == xs[j + 1]; }
      }
      forall a, b | 0 <= a < b < |rest| ensures rest[a] != rest[b] {
        var a' := if a < i then a else a + 1;
        var b' := if b < i then b else b + 1;
        assert rest[a] == xs[a'] && rest[b] == xs[b'];
      }
    }
  }

  /** k successive random choices without replacement from xs. */
  function Draw<T(==)>(xs: seq<T>, k: nat, d: seq<nat>): (r: seq<T>)
    requires k <= |xs|
    ensures |r| == k
    ensures forall x :: x in r ==> x in xs
    ensures k == |xs| ==> multiset(r) == multiset(xs)
    ensures NoDups(xs) ==> NoDups(r)
    decreases k
  {
    if k == 0 then []
    else
      var i := At(d, 0) % |xs|;
      var rest := RemoveAt(xs, i);
      RemoveAtFacts(xs, i);
      [xs[i]] + Draw(rest, k - 1, Rest(d))
  }

  lemma DrawUnfold<T>(xs: seq<T>, k: nat, d: seq<nat>)
    requires 0 < k <= |xs|
    ensures Draw(xs, k, d) == [xs[At(d, 0) % |xs|]] + Draw(RemoveAt(xs, At(d, 0) % |xs|), k - 1, Rest(d))
  {
  }

  /** A random permutation of xs (`random.shuffle`). */
  function Shuffle<T(==)>(xs: seq<T>, d: seq<nat>): (r: seq<T>)
    ensures |r| == |xs|
    ensures multiset(r) == multiset(xs)
    ensures NoDups(xs) ==> NoDups(r)
  {
    Draw(xs, |xs|, d)
  }

  /** `random.choice(xs)` for a non-empty list. */
  function Choice<T(==)>(xs: seq<T>, draw: nat): (r: T)
    requires |xs| > 0
    ensures r in xs
  {
    xs[draw % |xs|]
  }

  /** The elements of s, each increased by b. */
  function Shift(s: seq<int>, b: int): (r: seq<int>)
    ensures |r| == |s|
    ensures forall i :: 0 <= i < |s| ==> r[i] == s[i] + b
  {
    seq(|s|, i requires 0 <= i < |s| => s[i] + b)
  }

  lemma ShiftConcat(x: seq<int>, y: seq<int>, b: int)
    ensures Shift(x + y, b) == Shift(x, b) + Shift(y, b)
  {
  }

  lemma {:induction false} ShiftPreservesPermutation(s: seq<int>, t: seq<int>, b: int)
    requires multiset(s) == multiset(t)
    ensures multiset(Shift(s, b)) == multiset(Shift(t, b))
    decreases |s|
  {
    if |s| == 0 {
      assert |t| == |multiset(t)| == 0;
    } else {
      assert s[0] in multiset(t);
      var k :| 0 <= k < |t| && t[k] == s[0];
      var t' := t[..k] + t[k+1..];
      assert t == t[..k] + [t[k]] + t[k+1..];
      assert s == [s[0]] + s[1..];
      assert multiset(s[1..]) == multiset(s) - multiset{s[0]};
      assert multiset(t') == multiset(t) - multiset{t[k]};
      ShiftPreservesPermutation(s[1..], t', b);
      ShiftConcat([s[0]], s[1..], b);
      ShiftConcat(t[..k] + [t[k]], t[k+1..], b);
      ShiftConcat(t[..k], [t[k]], b);
      ShiftConcat(t[..k], t[k+1..], b);
    }
  }


  lemma SplitAround<T>(xs: seq<T>, i: nat)
    requires i < |xs|
    ensures xs == xs[..i] + ([xs[i]] + xs[i + 1..])
  {
  }

  /** A sequence whose every value occurs at most once in the multiset has no duplicates. */
  lemma {:induction false} MultisetBoundNoDups<T>(s: seq<T>, t: seq<T>)
    requires NoDups(t)
    requires multiset(s) == multiset(t)
    ensures NoDups(s)
  {
    forall i, j | 0 <= i < j < |s| ensures s[i] != s[j] {
      if s[i] == s[j] {
        var x := s[i];
        assert s == s[..j] + [s[j]] + s[j+1..];
        assert x in s[..j];
        assert multiset(s)[x] >= 2;
        NoDupsCountAtMostOne(t, x);
      }
    }
  }

  lemma {:induction false} NoDupsCountAtMostOne<T>(t: seq<T>, x: T)
    requires NoDups(t)
    ensures multiset(t)[x] <= 1
    decreases |t|
  {
    if |t| > 0 {
      assert t == [t[0]] + t[1..];
      assert NoDups(t[1..]);
      NoDupsCountAtMostOne(t[1..], x);
      if t[0] == x {
        assert x !in t[1..];
      }
    }
  }

  lemma RangeSnoc(lo: int, hi: int)
    requires lo <= hi
    ensures Range(lo, hi + 1) == Range(lo, hi) + [hi]
  {
  }

  lemma RangeNoDups(lo: int, hi: int)
    ensures NoDups(Range(lo, hi))
  {
  }

  /** Two increasing runs, every element of the first below every element of the second, make one. */
  lemma IncreasingAppend(a: seq<int>, b: seq<int>)
    requires StrictlyIncreasing(a) && StrictlyIncreasing(b)
    requires forall x, y :: x in a && y in b ==> x < y
    ensures StrictlyIncreasing(a + b)
  {
    forall i, j | 0 <= i < j < |a + b|
      ensures (a + b)[i] < (a + b)[j]
    {
      if i < |a| <= j {
        assert a[i] in a && b[j - |a|] in b;
      }
    }
  }

  lemma StrictlyIncreasingNoDups(s: seq<int>)
    requires StrictlyIncreasing(s)
    ensures NoDups(s)
  {
  }

  /** Strictly increasing integers grow by at least the index distance. */
  lemma {:induction false} IncreasingGap(s: seq<int>, i: nat, j: nat)
    requires StrictlyIncreasing(s)
    requires i <= j < |s|
    ensures s[j] - s[i] >= j - i
    decreases j - i
  {
    if i < j {
      IncreasingGap(s, i + 1, j);
    }
  }

  // Euclidean division facts used where slot numbers are decoded.

  lemma {:induction false} MulAtLeast(k: int, n: int)
    requires k >= 1 && n > 0
    ensures k * n >= n
    decreases k
  {
    if k > 1 {
      MulAtLeast(k - 1, n);
      assert k * n == (k - 1) * n + n;
    }
  }

  lemma MulDiff(q: int, p: int, n: int)
    ensures q * n - p * n == (q - p) * n
  {
  }

  /** Multiplication distributes over addition. */
  lemma Distribute(c: int, a: int, b: int)
    ensures c * (a + b) == c * a + c * b
  {
  }

  /** q and r are the quotient and remainder of x by n exactly when x == q * n + r with 0 <= r < n. */
  lemma DivModUnique(x: int, n: int, q: int, r: int)
    requires n > 0 && 0 <= r < n && x == q * n + r
    ensures x / n == q && x % n == r
  {
    var q', r' := x / n, x % n;
    assert q' * n + r' == x;
    MulDiff(q, q', n);
    var k := q - q';
    assert k * n == r' - r;
    if k >= 1 {
      MulAtLeast(k, n);
    } else if k <= -1 {
      MulAtLeast(-k, n);
    }
  }

  lemma ModShift(x: int, y: int, n: int)
    requires n > 0
    ensures (x % n + y) % n == (x + y) % n
  {
    var q := x / n;
    assert x % n + y == (x + y) - q * n;
    var r := (x + y) % n;
    var q2 := (x + y) / n;
    assert (x + y) == q2 * n + r;
    MulDiff(q2, q, n);
    DivModUnique((x + y) - q * n, n, q2 - q, r);
  }

  /** Fewer than n steps apart, two integers have different remainders modulo n. */
  lemma ModEqualGap(x: int, y: int, n: int)
    requires n > 0 && x < y < x + n
    ensures x % n != y % n
  {
    if x % n == y % n {
      var qx, qy := x / n, y / n;
      assert x == qx * n + x % n && y == qy * n + y % n;
      MulDiff(qy, qx, n);
      var k := qy - qx;
      assert k * n == y - x;
      if k >= 1 {
        MulAtLeast(k, n);
      } else if k < 0 {
        MulAtLeast(-k, n);
      }
    }
  }

  /** Adding the remainder back lands on j. */
  lemma ModAddBack(start: int, j: int, n: int)
    requires n > 0 && 0 <= j < n
    ensures (start + (j - start) % n) % n == j
  {
    ModShift(j - start, start, n);
    DivModUnique(j, n, 0, j);
  }

  // Counting distinct elements.

  lemma {:induction false} NoDupsSetSize<T>(s: seq<T>)
    requires NoDups(s)
    ensures |set x | x in s| == |s|
    decreases |s|
  {
    if |s| > 0 {
      var init := s[..|s| - 1];
      assert NoDups(init);
      NoDupsSetSize(init);
      assert (set x | x in s) == (set x | x in init) + {s[|s| - 1]};
      assert s[|s| - 1] !in init;
    }
  }

  lemma SubsetSameSize<T>(S: set<T>, R: set<T>)
    requires S <= R && |S| == |R|
    ensures S == R
  {
    var d := R - S;
    assert R == S + d && S * d == {};
    assert |d| == 0;
  }

  lemma NoDupsCount<T>(s: seq<T>, x: T)
    requires NoDups(s)
    ensures multiset(s)[x] == if x in s then 1 else 0
  {
    NoDupsCountAtMostOne(s, x);
    if x in s {
      assert x in multiset(s);
    }
  }

  /** n distinct integers from an interval of n integers are a permutation of it. */
  lemma DistinctInRangeIsPermutation(s: seq<int>, lo: int, n: nat)
    requires |s| == n && NoDups(s)
    requires forall i :: 0 <= i < |s| ==> lo <= s[i] < lo + n
    ensures multiset(s) == multiset(Range(lo, lo + n))
  {
    var r := Range(lo, lo + n);
    var S := set x | x in s;
    var R := set x | x in r;
    NoDupsSetSize(s);
    RangeNoDups(lo, lo + n);
    NoDupsSetSize(r);
    forall x | x in S ensures x in R {
      assert r[x - lo] == x;
    }
    SubsetSameSize(S, R);
    forall x ensures multiset(s)[x] == multiset(r)[x] {
      NoDupsCount(s, x);
      NoDupsCount(r, x);
      assert x in s <==> x in S;
      assert x in r <==> x in R;
    }
  }

  /** The distinct elements of a sequence. */
  function Elems<T>(s: seq<T>): set<T> {
    set x | x in s
  }

  /** `list(set(xs))`: the distinct elements of xs, in order of first occurrence. */
  function Dedup<T(==)>(xs: seq<T>): (r: seq<T>)
    ensures NoDups(r) && Elems(r) == Elems(xs)
    decreases |xs|
  {
    if |xs| == 0 then []
    else
      var rest := Dedup(xs[..|xs| - 1]);
      assert Elems(xs) == Elems(xs[..|xs| - 1]) + {xs[|xs| - 1]};
      if xs[|xs| - 1] in rest then rest
      else
        assert forall i :: 0 <= i < |rest| ==> rest[i] in Elems(rest);
        rest + [xs[|xs| - 1]]
  }

  lemma {:induction false} DedupOfDistinct<T>(s: seq<T>)
    requires NoDups(s)
    ensures Dedup(s) == s
    decreases |s|
  {
    if |s| > 0 {
      var init := s[..|s| - 1];
      DedupOfDistinct(init);
      assert s[|s| - 1] !in init;
      assert s == init + [s[|s| - 1]];
    }
  }

  /** Appending elements already present leaves a duplicate-free list as it is. */
  lemma {:induction false} DedupAbsorbs<T>(s: seq<T>, x: seq<T>)
    requires NoDups(s) && Elems(x) <= Elems(s)
    ensures Dedup(s + x) == s
    decreases |x|
  {
    if |x| == 0 {
      assert s + x == s;
      DedupOfDistinct(s);
    } else {
      var init := x[..|x| - 1];
      assert Elems(init) <= Elems(x);
      DedupAbsorbs(s, init);
      assert (s + x)[..|s + x| - 1] == s + init;
      assert (s + x)[|s + x| - 1] == x[|x| - 1];
      assert x[|x| - 1] in Elems(x);
    }
  }

  lemma SeqAssoc<T>(a: seq<T>, b: seq<T>, c: seq<T>)
    ensures (a + b) + c == a + (b + c)
  {
  }
}
