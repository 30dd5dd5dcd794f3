/** The batch median that fills missing `margin_low` cells: the present values
    sorted, the middle one for an odd count, the mean of the two middle ones
    for an even count. */
module Stats {

  predicate Sorted(s: seq<real>)
  {
    forall i, j :: 0 <= i < j < |s| ==> s[i] <= s[j]
  }

  /** Number of values of `xs` that are at most `m`. */
  function CountAtMost(xs: seq<real>, m: real): nat
  {
    if xs == [] then 0 else (if xs[0] <= m then 1 else 0) + CountAtMost(xs[1..], m)
  }

  /** Number of values of `xs` that are at least `m`. */
  function CountAtLeast(xs: seq<real>, m: real): nat
  {
    if xs == [] then 0 else (if xs[0] >= m then 1 else 0) + CountAtLeast(xs[1..], m)
  }

  /** Places `x` in front of the first element of `s` that is not smaller. */
  function Insert(x: real, s: seq<real>): seq<real>
  {
    if s == [] then [x]
    else if x <= s[0] then [x] + s
    else [s[0]] + Insert(x, s[1..])
  }

  /** Inserting adds exactly `x` to the values. */
  lemma {:induction false} InsertCounts(x: real, s: seq<real>)
    ensures multiset(Insert(x, s)) == multiset(s) + multiset{x}
    decreases |s|
  {
    if s != [] && x > s[0] {
      InsertCounts(x, s[1..]);
      assert s == [s[0]] + s[1..];
    }
  }

  /** A lower bound of `x` and of every element of `s` bounds the result. */
  lemma {:induction false} InsertBounded(x: real, s: seq<real>, a: real)
    requires a <= x
    requires forall k :: 0 <= k < |s| ==> a <= s[k]
    ensures forall k :: 0 <= k < |Insert(x, s)| ==> a <= Insert(x, s)[k]
    decreases |s|
  {
    if s != [] && x > s[0] {
      InsertBounded(x, s[1..], a);
    }
  }

  /** Inserting into a sorted sequence keeps it sorted. */
  lemma {:induction false} InsertSorted(x: real, s: seq<real>)
    requires Sorted(s)
    ensures Sorted(Insert(x, s))
    decreases |s|
  {
    if s != [] && x > s[0] {
      InsertSorted(x, s[1..]);
      InsertBounded(x, s[1..], s[0]);
      SortedCons(s[0], Insert(x, s[1..]));
    } else if s != [] {
      SortedCons(x, s);
    }
  }

  /** A value at most every element of a sorted sequence can go in front. */
  lemma SortedCons(a: real, s: seq<real>)
    requires Sorted(s)
    requires forall k :: 0 <= k < |s| ==> a <= s[k]
    ensures Sorted([a] + s)
  {
  }

  /** Insertion sort. */
  function Sort(xs: seq<real>): (s: seq<real>)
    ensures Sorted(s)
    ensures multiset(s) == multiset(xs)
  {
    if xs == [] then []
    else
      assert xs == [xs[0]] + xs[1..];
      InsertSorted(xs[0], Sort(xs[1..]));
      InsertCounts(xs[0], Sort(xs[1..]));
      Insert(xs[0], Sort(xs[1..]))
  }

  lemma {:induction false} InsertKeepsCounts(x: real, s: seq<real>, m: real)
    ensures CountAtMost(Insert(x, s), m) == (if x <= m then 1 else 0) + CountAtMost(s, m)
    ensures CountAtLeast(Insert(x, s), m) == (if x >= m then 1 else 0) + CountAtLeast(s, m)
    decreases |s|
  {
    if s != [] && x > s[0] {
      InsertKeepsCounts(x, s[1..], m);
      assert ([s[0]] + Insert(x, s[1..]))[1..] == Insert(x, s[1..]);
    } else if s != [] {
      assert ([x] + s)[1..] == s;
    }
  }

  /** Sorting changes neither count. */
  lemma {:induction false} SortKeepsCounts(xs: seq<real>, m: real)
    ensures CountAtMost(Sort(xs), m) == CountAtMost(xs, m)
    ensures CountAtLeast(Sort(xs), m) == CountAtLeast(xs, m)
    decreases |xs|
  {
    if xs != [] {
      SortKeepsCounts(xs[1..], m);
      InsertKeepsCounts(xs[0], Sort(xs[1..]), m);
    }
  }

  lemma {:induction false} CountsOfConcat(a: seq<real>, b: seq<real>, m: real)
    ensures CountAtMost(a + b, m) == CountAtMost(a, m) + CountAtMost(b, m)
    ensures CountAtLeast(a + b, m) == CountAtLeast(a, m) + CountAtLeast(b, m)
    decreases |a|
  {
    if a != [] {
      assert (a + b)[1..] == a[1..] + b;
      CountsOfConcat(a[1..], b, m);
    } else {
      assert a + b == b;
    }
  }

  /** Every value of a sequence bounded by `m` is counted. */
  lemma {:induction false} CountAllBounded(s: seq<real>, m: real)
    ensures (forall k :: 0 <= k < |s| ==> s[k] <= m) ==> CountAtMost(s, m) == |s|
    ensures (forall k :: 0 <= k < |s| ==> s[k] >= m) ==> CountAtLeast(s, m) == |s|
    decreases |s|
  {
    if s != [] {
      CountAllBounded(s[1..], m);
    }
  }

  /** In a sorted sequence, the first `j` values are at most any `m` that is
      at least `s[j - 1]`. */
  lemma SortedCountAtMost(s: seq<real>, j: nat, m: real)
    requires Sorted(s) && j <= |s|
    requires j > 0 ==> s[j - 1] <= m
    ensures CountAtMost(s, m) >= j
  {
    assert s == s[..j] + s[j..];
    CountsOfConcat(s[..j], s[j..], m);
    CountAllBounded(s[..j], m);
  }

  /** In a sorted sequence, the values from position `j` on are at least any
      `m` that is at most `s[j]`. */
  lemma SortedCountAtLeast(s: seq<real>, j: nat, m: real)
    requires Sorted(s) && j <= |s|
    requires j < |s| ==> m <= s[j]
    ensures CountAtLeast(s, m) >= |s| - j
  {
    assert s == s[..j] + s[j..];
    CountsOfConcat(s[..j], s[j..], m);
    CountAllBounded(s[j..], m);
  }

  /** The median of a non-empty batch, computed on exact reals. */
  function Median(xs: seq<real>): real
    requires |xs| > 0
  {
    var s := Sort(xs);
    var h := |s| / 2;
    if |s| % 2 == 1 then s[h] else (s[h - 1] + s[h]) / 2.0
  }

  /** The median splits the batch in half: at least half of the values are at
      most the median and at least half are at least the median. */
  lemma MedianSplitsBatch(xs: seq<real>)
    requires |xs| > 0
    ensures 2 * CountAtMost(xs, Median(xs)) >= |xs|
    ensures 2 * CountAtLeast(xs, Median(xs)) >= |xs|
  {
    var s, m := Sort(xs), Median(xs);
    var n, h := |s|, |s| / 2;
    assert n == |xs| by { assert |multiset(s)| == |multiset(xs)|; }
    assert n == 2 * h + n % 2;
    SortKeepsCounts(xs, m);
    if n % 2 == 1 {
      assert m == s[h];
      SortedCountAtMost(s, h + 1, m);
      SortedCountAtLeast(s, h, m);
    } else {
      assert m == (s[h - 1] + s[h]) / 2.0;
      assert s[h - 1] <= s[h];
      SortedCountAtMost(s, h, m);
      SortedCountAtLeast(s, h, m);
    }
  }

  /** The median lies between the smallest and the largest value of the batch. */
  lemma MedianWithinBatch(xs: seq<real>)
    requires |xs| > 0
    ensures exists i :: 0 <= i < |xs| && xs[i] <= Median(xs)
    ensures exists j :: 0 <= j < |xs| && Median(xs) <= xs[j]
  {
    var m := Median(xs);
    MedianSplitsBatch(xs);
    AtMostWitness(xs, m);
    AtLeastWitness(xs, m);
  }

  lemma {:induction false} AtMostWitness(xs: seq<real>, m: real)
    requires CountAtMost(xs, m) > 0
    ensures exists i :: 0 <= i < |xs| && xs[i] <= m
    decreases |xs|
  {
    if xs[0] > m {
      AtMostWitness(xs[1..], m);
      var i :| 0 <= i < |xs[1..]| && xs[1..][i] <= m;
      assert xs[i + 1] <= m;
    }
  }

  lemma {:induction false} AtLeastWitness(xs: seq<real>, m: real)
    requires CountAtLeast(xs, m) > 0
    ensures exists i :: 0 <= i < |xs| && xs[i] >= m
    decreases |xs|
  {
    if xs[0] < m {
      AtLeastWitness(xs[1..], m);
      var i :| 0 <= i < |xs[1..]| && xs[1..][i] >= m;
      assert xs[i + 1] >= m;
    }
  }

  /** A batch of equal values has that value as its median. */
  lemma MedianOfConstantBatch(xs: seq<real>, v: real)
    requires |xs| > 0
    requires forall k :: 0 <= k < |xs| ==> xs[k] == v
    ensures Median(xs) == v
  {
    MedianWithinBatch(xs);
  }
}
