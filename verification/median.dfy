/** The figure reported per phase: the trial results sorted ascending, indexed at the
    middle (`sort[RUNS/2]`). */
module Median {

  /** Number of timed trials per phase. */
  const Runs: nat := 5

  predicate Sorted(s: seq<int>) {
    forall i, j :: 0 <= i < j < |s| ==> s[i] <= s[j]
  }

  /** Inserts `x` into a sorted sequence, keeping it sorted. */
  function Insert(x: int, s: seq<int>): (r: seq<int>)
    requires Sorted(s)
    ensures Sorted(r)
    ensures multiset(r) == multiset(s) + multiset{x}
    ensures |r| == |s| + 1
    ensures r[0] == if |s| == 0 || x <= s[0] then x else s[0]
  {
    if |s| == 0 || x <= s[0] then [x] + s
    else
      var rest := Insert(x, s[1..]);
      assert s == [s[0]] + s[1..];
      assert s[0] <= rest[0];
      [s[0]] + rest
  }

  /** Ascending sort (insertion sort): a sorted permutation of the input. */
  function Sort(s: seq<int>): (r: seq<int>)
    ensures Sorted(r)
    ensures multiset(r) == multiset(s)
    ensures |r| == |s|
  {
    if |s| == 0 then []
    else
      assert s == [s[0]] + s[1..];
      Insert(s[0], Sort(s[1..]))
  }

  /** The element at index `|s| / 2` of the sorted trials. */
  function MiddleOf(s: seq<int>): (m: int)
    requires |s| > 0
  {
    Sort(s)[|s| / 2]
  }

  /** How many entries of `s` lie strictly below `m`. */
  function CountBelow(s: seq<int>, m: int): (n: nat)
    ensures n <= |s|
  {
    if |s| == 0 then 0 else (if s[0] < m then 1 else 0) + CountBelow(s[1..], m)
  }

  /** How many entries of `s` lie strictly above `m`. */
  function CountAbove(s: seq<int>, m: int): (n: nat)
    ensures n <= |s|
  {
    if |s| == 0 then 0 else (if s[0] > m then 1 else 0) + CountAbove(s[1..], m)
  }

  lemma {:induction false} CountsInsert(x: int, s: seq<int>, m: int)
    requires Sorted(s)
    ensures CountBelow(Insert(x, s), m) == CountBelow(s, m) + (if x < m then 1 else 0)
    ensures CountAbove(Insert(x, s), m) == CountAbove(s, m) + (if x > m then 1 else 0)
    decreases |s|
  {
    if |s| == 0 || x <= s[0] {
      assert Insert(x, s)[1..] == s;
    } else {
      CountsInsert(x, s[1..], m);
      assert Insert(x, s)[1..] == Insert(x, s[1..]);
    }
  }

  /** Sorting moves entries but keeps how many lie below or above any bound. */
  lemma {:induction false} CountsSort(s: seq<int>, m: int)
    ensures CountBelow(Sort(s), m) == CountBelow(s, m)
    ensures CountAbove(Sort(s), m) == CountAbove(s, m)
  {
    if |s| > 0 {
      CountsSort(s[1..], m);
      CountsInsert(s[0], Sort(s[1..]), m);
    }
  }

  /** Entries below `m` can only sit before index `k` when everything from `k` on is at least `m`. */
  lemma {:induction false} CountBelowPrefix(s: seq<int>, m: int, k: nat)
    requires k <= |s|
    requires forall i :: k <= i < |s| ==> s[i] >= m
    ensures CountBelow(s, m) <= k
  {
    if |s| > 0 {
      if k > 0 {
        CountBelowPrefix(s[1..], m, k - 1);
      } else {
        CountBelowPrefix(s[1..], m, 0);
      }
    }
  }

  /** Entries above `m` can only sit from index `j` on when everything before `j` is at most `m`. */
  lemma {:induction false} CountAboveSuffix(s: seq<int>, m: int, j: nat)
    requires j <= |s|
    requires forall i :: 0 <= i < j ==> s[i] <= m
    ensures CountAbove(s, m) <= |s| - j
  {
    if |s| > 0 && j > 0 {
      CountAboveSuffix(s[1..], m, j - 1);
    }
  }

  /** Every entry is below `hi` or above `lo` when `lo < hi`. */
  lemma {:induction false} CountsCover(s: seq<int>, lo: int, hi: int)
    requires lo < hi
    ensures CountBelow(s, hi) + CountAbove(s, lo) >= |s|
  {
    if |s| > 0 {
      CountsCover(s[1..], lo, hi);
    }
  }

  lemma SortedBounds(t: seq<int>, k: nat)
    requires Sorted(t) && k < |t|
    ensures forall i :: k <= i < |t| ==> t[i] >= t[k]
    ensures forall i :: 0 <= i < k + 1 ==> t[i] <= t[k]
  {
  }

  /** The middle element of the sorted trials is one of the trials, and at most half of
      the trials lie strictly below it and at most half strictly above. */
  lemma MiddleOfBounds(s: seq<int>)
    requires |s| > 0
    ensures MiddleOf(s) in s
    ensures CountBelow(s, MiddleOf(s)) <= |s| / 2
    ensures CountAbove(s, MiddleOf(s)) <= (|s| - 1) / 2
  {
    var t, k := Sort(s), |s| / 2;
    var m := t[k];
    assert m in multiset(t);
    assert m in multiset(s);
    CountsSort(s, m);
    assert |s| - (k + 1) == (|s| - 1) / 2;
    SortedBounds(t, k);
    CountBelowPrefix(t, m, k);
    CountAboveSuffix(t, m, k + 1);
  }

  /** For an odd number of trials the middle element is the median: it is the only value
      with at most half of the trials strictly below it and at most half strictly above. */
  lemma MiddleIsMedian(s: seq<int>, m: int)
    requires |s| % 2 == 1
    ensures m == MiddleOf(s) <==> CountBelow(s, m) <= |s| / 2 && CountAbove(s, m) <= |s| / 2
  {
    var mid := MiddleOf(s);
    MiddleOfBounds(s);
    if CountBelow(s, m) <= |s| / 2 && CountAbove(s, m) <= |s| / 2 {
      if m < mid {
        CountsCover(s, m, mid);
      } else if mid < m {
        CountsCover(s, mid, m);
      }
    }
  }

  /** With five trials the reported figure is index 2 of the sorted trials: at most two
      trials lie below it and at most two above. */
  lemma ReportedFigure(s: seq<int>)
    requires |s| == Runs
    ensures MiddleOf(s) == Sort(s)[2]
    ensures CountBelow(s, MiddleOf(s)) <= 2 && CountAbove(s, MiddleOf(s)) <= 2
  {
    assert |s| / 2 == 2 && (|s| - 1) / 2 == 2;
    MiddleOfBounds(s);
  }
}
