/**
 * The entry point of the long-buffer sort: a range with few natural runs is sorted by merging
 * them, alternating between the buffer and a workspace; any other range goes to the quicksort
 * of module LongSort.
 */
module LongMerge {
  import opened JavaTypes
  import opened LongSort

  // ---------------------------------------------------------------------------------------------
  // Run detection
  // ---------------------------------------------------------------------------------------------

  /** s[lo..hi) is in non-increasing order. */
  ghost predicate Descending(s: seq<Long>, lo: int, hi: int) {
    0 <= lo && hi <= |s| && forall i, j :: lo <= i < j < hi ==> s[i] >= s[j]
  }

  /** t holds s[lo..hi) back to front. */
  ghost predicate Reversed(t: seq<Long>, s: seq<Long>, lo: int, hi: int) {
    0 <= lo <= hi <= |t| == |s| && forall i :: lo <= i < hi ==> t[i] == s[lo + hi - 1 - i]
  }

  /** A non-increasing range read back to front is non-decreasing. */
  lemma ReversedSorted(t: seq<Long>, s: seq<Long>, lo: int, hi: int)
    requires Reversed(t, s, lo, hi) && Descending(s, lo, hi)
    ensures Sorted(t, lo, hi)
  {
    forall i, j | lo <= i < j < hi
      ensures t[i] <= t[j]
    {
      assert t[i] == s[lo + hi - 1 - i] && t[j] == s[lo + hi - 1 - j];
    }
  }

  /** Halfway through reversing s0[lo0..hi0): the ends are done and the middle [lo, hi] is untouched. */
  ghost predicate Reversing(s: seq<Long>, s0: seq<Long>, lo0: int, hi0: int, lo: int, hi: int) {
    lo0 <= lo <= hi + 1 <= hi0 && lo + hi == lo0 + hi0 - 1 && Perm(s, s0, lo0, hi0)
    && (forall i :: lo0 <= i < lo || hi < i < hi0 ==> s[i] == s0[lo0 + hi0 - 1 - i])
    && (forall i :: lo <= i <= hi ==> s[i] == s0[i])
  }

  /** Swapping the two ends of the untouched middle moves the reversal one step inwards. */
  lemma ReverseStep(s: seq<Long>, t: seq<Long>, s0: seq<Long>, lo0: int, hi0: int, lo: int, hi: int)
    requires Reversing(s, s0, lo0, hi0, lo, hi) && lo < hi && t == s[lo := s[hi]][hi := s[lo]]
    ensures Reversing(t, s0, lo0, hi0, lo + 1, hi - 1)
  {
    SwapMultiset(s, lo, hi);
    assert t[..lo0] == s[..lo0] && t[hi0..] == s[hi0..];
  }

  /** Reverses a[lo0..hi0) in place by swapping from both ends towards the middle. */
  method Reverse(a: array<Long>, lo0: int, hi0: int)
    requires 0 <= lo0 <= hi0 <= a.Length
    modifies a
    ensures Perm(a[..], old(a[..]), lo0, hi0) && Reversed(a[..], old(a[..]), lo0, hi0)
  {
    var lo, hi := lo0, hi0 - 1;
    while lo < hi
      invariant Reversing(a[..], old(a[..]), lo0, hi0, lo, hi)
    {
      ReverseStep(a[..], a[..][lo := a[hi]][hi := a[lo]], old(a[..]), lo0, hi0, lo, hi);
      a[lo], a[hi] := a[hi], a[lo];
      lo, hi := lo + 1, hi - 1;
    }
  }

  /** Extends the ascending run that starts at k0 as far as it goes. */
  method AscendingRun(a: array<Long>, k0: int, right: int) returns (k: int)
    requires 0 <= k0 < right < a.Length
    ensures k0 < k <= right + 1 && Sorted(a[..], k0, k) && (k <= right ==> a[k - 1] > a[k])
  {
    k := k0 + 1;
    while k <= right && a[k - 1] <= a[k]
      invariant k0 < k <= right + 1 && Sorted(a[..], k0, k)
    {
      SortedExtend(a[..], k0, k);
      k := k + 1;
    }
  }

  /** Extends the descending run that starts at k0 as far as it goes. */
  method DescendingRun(a: array<Long>, k0: int, right: int) returns (k: int)
    requires 0 <= k0 < right < a.Length
    ensures k0 < k <= right + 1 && Descending(a[..], k0, k) && (k <= right ==> a[k - 1] < a[k])
  {
    k := k0 + 1;
    while k <= right && a[k - 1] >= a[k]
      invariant k0 < k <= right + 1 && Descending(a[..], k0, k)
    {
      k := k + 1;
    }
  }

  /**
   * Extends the run of elements equal to a[k0]; tooLong reports that MAX_RUN_LENGTH equal
   * neighbours were met, at which point the scan stops.
   */
  method EqualRun(a: array<Long>, k0: int, right: int) returns (k: int, tooLong: bool)
    requires 0 <= k0 < right < a.Length
    ensures tooLong ==> k == k0 + MAX_RUN_LENGTH <= right && Within(a[..], k0, k + 1, a[k0] as int, a[k0] as int)
    ensures !tooLong ==> k0 < k <= right + 1 && Within(a[..], k0, k, a[k0] as int, a[k0] as int)
    ensures !tooLong ==> (k <= right ==> a[k - 1] != a[k]) && k < k0 + MAX_RUN_LENGTH + 1
  {
    var m := MAX_RUN_LENGTH;
    k := k0 + 1;
    while k <= right && a[k - 1] == a[k]
      invariant k0 < k <= right + 1 && m == MAX_RUN_LENGTH - (k - k0 - 1) && m > 0
      invariant Within(a[..], k0, k, a[k0] as int, a[k0] as int)
    {
      m := m - 1;
      if m == 0 {
        return k, true;
      }
      k := k + 1;
    }
    tooLong := false;
  }

  /**
   * Finds the run starting at k0 and leaves it ascending: an ascending run is kept, a descending
   * one is reversed, an equal one is kept unless it is too long.
   */
  method ScanRun(a: array<Long>, k0: int, right: int) returns (k: int, tooLong: bool)
    requires 0 <= k0 < right < a.Length
    modifies a
    ensures Perm(a[..], old(a[..]), k0, right + 1)
    ensures tooLong ==> k == k0 + MAX_RUN_LENGTH <= right && Within(a[..], k0, k + 1, a[k0] as int, a[k0] as int)
    ensures !tooLong ==> k0 < k <= right + 1 && Sorted(a[..], k0, k)
  {
    tooLong := false;
    if a[k0] < a[k0 + 1] {
      k := AscendingRun(a, k0, right);
    } else if a[k0] > a[k0 + 1] {
      k := DescendingRun(a, k0, right);
      ghost var s := a[..];
      Reverse(a, k0, k);
      ReversedSorted(a[..], s, k0, k);
      PermWiden(a[..], s, k0, k, k0, right + 1);
    } else {
      k, tooLong := EqualRun(a, k0, right);
      if !tooLong {
        SortedConstant(a[..], k0, k, a[k0] as int);
      }
    }
  }

  /** r[0..count] are strictly increasing boundaries from left to end. */
  ghost predicate Spans(r: seq<int>, count: int, left: int, end: int) {
    0 <= count < |r| && r[0] == left && r[count] == end
    && (forall i, j :: 0 <= i < j <= count ==> r[i] < r[j])
    && (forall i :: 0 <= i <= count ==> left <= r[i] <= end)
  }

  /** The run [r[i], r[i + 1]) of s is ascending. */
  ghost predicate RunSorted(s: seq<Long>, r: seq<int>, i: int)
    requires 0 <= i && i + 1 < |r|
  {
    Sorted(s, r[i], r[i + 1])
  }

  /** r[0..count] are the boundaries of count consecutive ascending runs covering [left, end) of s. */
  ghost predicate Runs(s: seq<Long>, r: seq<int>, count: int, left: int, end: int) {
    Spans(r, count, left, end) && 0 <= left && end <= |s| && forall i :: 0 <= i < count ==> RunSorted(s, r, i)
  }

  /** A sorted block written after the last run, without touching the earlier ones, is recorded as a new run. */
  lemma RunsExtend(s: seq<Long>, t: seq<Long>, r: seq<int>, r': seq<int>, count: int, left: int, k: int, k': int,
                   hi: int)
    requires Runs(s, r, count, left, k) && Frame(t, s, k, hi) && k < k' <= hi
    requires Sorted(t, k, k') && count + 1 < |r| && r' == r[count + 1 := k']
    ensures Runs(t, r', count + 1, left, k')
  {
    forall i | 0 <= i < count + 1
      ensures RunSorted(t, r', i)
    {
      if i < count {
        assert RunSorted(s, r, i);
        SortedFrame(t, s, k, hi, r[i], r[i + 1]);
      }
    }
  }

  /**
   * Splits a[left..right] into ascending runs, recording where each begins in run, and reversing
   * descending runs on the way. abort reports a range that is not worth merging: one with
   * MAX_RUN_COUNT runs, or with a run of more than MAX_RUN_LENGTH equal neighbours, which starts
   * at the ghost index at.
   */
  method DetectRuns(a: array<Long>, left: int, right: int, run: array<int>)
    returns (count: int, abort: bool, ghost at: int)
    requires 0 <= left < right < a.Length && run.Length == MAX_RUN_COUNT + 1
    modifies a, run
    ensures Perm(a[..], old(a[..]), left, right + 1)
    ensures !abort ==> 1 <= count < MAX_RUN_COUNT && right <= run[count] <= right + 1
    ensures !abort ==> Runs(a[..], run[..], count, left, run[count])
    ensures abort && count != MAX_RUN_COUNT ==>
              left <= at && at + MAX_RUN_LENGTH <= right && Within(a[..], at, at + MAX_RUN_LENGTH + 1, a[at] as int, a[at] as int)
  {
    count, at := 0, left;
    run[0] := left;
    var k := left;
    while k < right
      invariant 0 <= count < MAX_RUN_COUNT && left <= k <= right + 1 && run[count] == k
      invariant Runs(a[..], run[..], count, left, k)
      invariant Perm(a[..], old(a[..]), left, right + 1)
      decreases right - k
    {
      ghost var s, r := a[..], run[..];
      var k', tooLong := ScanRun(a, k, right);
      PermStep(a[..], s, old(a[..]), k, right + 1, left, right + 1);
      if tooLong {
        return count, true, k;
      }
      count := count + 1;
      if count == MAX_RUN_COUNT {
        return count, true, at;
      }
      run[count] := k';
      RunsExtend(s, a[..], r, run[..], count - 1, left, k, k', right + 1);
      k := k';
    }
    abort := false;
  }

  // ---------------------------------------------------------------------------------------------
  // Merging two adjacent runs
  // ---------------------------------------------------------------------------------------------

  /**
   * The stable merge of x and y: the head of x goes first unless y is non-empty and its head is
   * smaller.
   */
  ghost function Merge(x: seq<Long>, y: seq<Long>): seq<Long>
    decreases |x| + |y|
  {
    if |x| + |y| == 0 then []
    else if |y| == 0 || (|x| > 0 && x[0] <= y[0]) then [x[0]] + Merge(x[1..], y)
    else [y[0]] + Merge(x, y[1..])
  }

  /** The merge is as long as both inputs together. */
  lemma {:induction false} MergeLength(x: seq<Long>, y: seq<Long>)
    ensures |Merge(x, y)| == |x| + |y|
    decreases |x| + |y|
  {
    if |x| + |y| == 0 {
    } else if |y| == 0 || (|x| > 0 && x[0] <= y[0]) {
      MergeLength(x[1..], y);
    } else {
      MergeLength(x, y[1..]);
    }
  }

  /** Every element of s is at least b. */
  ghost predicate AtLeast(s: seq<Long>, b: Long) {
    forall i :: 0 <= i < |s| ==> b <= s[i]
  }

  /** Putting h in front of t adds h to its multiset. */
  lemma ConsMultiset(m: seq<Long>, h: Long, t: seq<Long>)
    requires m == [h] + t
    ensures multiset(m) == multiset{h} + multiset(t)
  {
  }

  /** Merging keeps every element of both inputs, and nothing else. */
  lemma {:induction false} MergeMultiset(x: seq<Long>, y: seq<Long>)
    ensures multiset(Merge(x, y)) == multiset(x) + multiset(y)
    decreases |x| + |y|, 1
  {
    if |x| + |y| == 0 {
    } else if |y| == 0 || (|x| > 0 && x[0] <= y[0]) {
      TakeLeftMultiset(x, y);
    } else {
      TakeRightMultiset(x, y);
    }
  }

  lemma {:induction false} TakeLeftMultiset(x: seq<Long>, y: seq<Long>)
    requires |x| > 0 && (|y| == 0 || x[0] <= y[0])
    ensures multiset(Merge(x, y)) == multiset(x) + multiset(y)
    decreases |x| + |y|, 0
  {
    MergeMultiset(x[1..], y);
    ConsMultiset(Merge(x, y), x[0], Merge(x[1..], y));
    ConsMultiset(x, x[0], x[1..]);
  }

  lemma {:induction false} TakeRightMultiset(x: seq<Long>, y: seq<Long>)
    requires |y| > 0 && !(|x| > 0 && x[0] <= y[0])
    ensures multiset(Merge(x, y)) == multiset(x) + multiset(y)
    decreases |x| + |y|, 0
  {
    MergeMultiset(x, y[1..]);
    ConsMultiset(Merge(x, y), y[0], Merge(x, y[1..]));
    ConsMultiset(y, y[0], y[1..]);
  }

  /** A lower bound of both inputs bounds the merge. */
  lemma {:induction false} MergeAtLeast(x: seq<Long>, y: seq<Long>, b: Long)
    requires AtLeast(x, b) && AtLeast(y, b)
    ensures AtLeast(Merge(x, y), b)
    decreases |x| + |y|
  {
    if |x| + |y| == 0 {
    } else if |y| == 0 || (|x| > 0 && x[0] <= y[0]) {
      MergeAtLeast(x[1..], y, b);
    } else {
      MergeAtLeast(x, y[1..], b);
    }
  }

  /** A sorted sequence headed by an element not greater than any of the rest. */
  lemma ConsSorted(h: Long, t: seq<Long>)
    requires Sorted(t, 0, |t|) && AtLeast(t, h)
    ensures Sorted([h] + t, 0, |t| + 1)
  {
    var s := [h] + t;
    forall i, j | 0 <= i < j < |s|
      ensures s[i] <= s[j]
    {
      assert s[j] == t[j - 1];
      if i > 0 {
        assert s[i] == t[i - 1];
      }
    }
  }

  /** The merge of two sorted sequences is sorted. */
  lemma {:induction false} MergeSorted(x: seq<Long>, y: seq<Long>)
    requires Sorted(x, 0, |x|) && Sorted(y, 0, |y|)
    ensures Sorted(Merge(x, y), 0, |x| + |y|)
    decreases |x| + |y|
  {
    MergeLength(x, y);
    if |x| + |y| == 0 {
    } else if |y| == 0 || (|x| > 0 && x[0] <= y[0]) {
      MergeSorted(x[1..], y);
      MergeLength(x[1..], y);
      assert AtLeast(x[1..], x[0]) by {
        forall i | 0 <= i < |x| - 1
          ensures x[0] <= x[1..][i]
        {
          assert x[1..][i] == x[i + 1];
        }
      }
      assert AtLeast(y, x[0]) by {
        forall i | 0 <= i < |y|
          ensures x[0] <= y[i]
        {
          assert y[0] <= y[i];
        }
      }
      MergeAtLeast(x[1..], y, x[0]);
      ConsSorted(x[0], Merge(x[1..], y));
    } else {
      MergeSorted(x, y[1..]);
      MergeLength(x, y[1..]);
      assert AtLeast(y[1..], y[0]) by {
        forall i | 0 <= i < |y| - 1
          ensures y[0] <= y[1..][i]
        {
          assert y[1..][i] == y[i + 1];
        }
      }
      assert AtLeast(x, y[0]) by {
        forall i | 0 <= i < |x|
          ensures y[0] <= x[i]
        {
          assert x[0] <= x[i];
        }
      }
      MergeAtLeast(x, y[1..], y[0]);
      ConsSorted(y[0], Merge(x, y[1..]));
    }
  }

  /**
   * Merging s[lo..mi) with s[mi..hi) into d is under way: [lo, i) is written, and the merge of what
   * remains of both runs completes it to m.
   */
  ghost predicate Merging(d: seq<Long>, s: seq<Long>, m: seq<Long>, lo: int, i: int, p: int, mi: int, q: int,
                          hi: int, so: int, do: int) {
    lo <= p <= mi <= q <= hi && i == p + q - mi && 0 <= lo + so && hi + so <= |s| && 0 <= lo + do && hi + do <= |d|
    && d[lo + do..i + do] + Merge(s[p + so..mi + so], s[q + so..hi + so]) == m
  }

  /** Taking the head of the left run: the merge of what remains follows the element written. */
  lemma TakeLeft(d: seq<Long>, d': seq<Long>, s: seq<Long>, m: seq<Long>, lo: int, i: int, p: int, mi: int,
                 q: int, hi: int, so: int, do: int)
    requires Merging(d, s, m, lo, i, p, mi, q, hi, so, do) && p < mi && (q >= hi || s[p + so] <= s[q + so])
    requires d' == d[i + do := s[p + so]]
    ensures Merging(d', s, m, lo, i + 1, p + 1, mi, q, hi, so, do)
  {
    assert s[p + so..mi + so][1..] == s[p + 1 + so..mi + so];
    assert d'[lo + do..i + 1 + do] == d[lo + do..i + do] + [s[p + so]];
  }

  /** Taking the head of the right run: the merge of what remains follows the element written. */
  lemma TakeRight(d: seq<Long>, d': seq<Long>, s: seq<Long>, m: seq<Long>, lo: int, i: int, p: int, mi: int,
                  q: int, hi: int, so: int, do: int)
    requires Merging(d, s, m, lo, i, p, mi, q, hi, so, do) && q < hi && !(p < mi && s[p + so] <= s[q + so])
    requires d' == d[i + do := s[q + so]]
    ensures Merging(d', s, m, lo, i + 1, p, mi, q + 1, hi, so, do)
  {
    assert s[q + so..hi + so][1..] == s[q + 1 + so..hi + so];
    assert d'[lo + do..i + 1 + do] == d[lo + do..i + do] + [s[q + so]];
  }

  /** Once both runs are used up, d holds their merge. */
  lemma MergingDone(d: seq<Long>, s: seq<Long>, m: seq<Long>, lo: int, i: int, p: int, mi: int, q: int, hi: int,
                    so: int, do: int)
    requires Merging(d, s, m, lo, i, p, mi, q, hi, so, do) && i >= hi
    ensures d[lo + do..hi + do] == m
  {
    assert Merge(s[p + so..mi + so], s[q + so..hi + so]) == [];
  }

  /**
   * Merges the adjacent runs [lo, mi) and [mi, hi) of src into [lo, hi) of dst; index i of src is
   * read at src[i + so] and of dst written at dst[i + do].
   */
  method MergeRuns(src: array<Long>, so: int, dst: array<Long>, do: int, lo: int, mi: int, hi: int)
    requires src != dst && lo <= mi <= hi
    requires 0 <= lo + so && hi + so <= src.Length && 0 <= lo + do && hi + do <= dst.Length
    modifies dst
    ensures Frame(dst[..], old(dst[..]), lo + do, hi + do)
    ensures dst[lo + do..hi + do] == Merge(src[lo + so..mi + so], src[mi + so..hi + so])
  {
    ghost var s := src[..];
    ghost var m := Merge(s[lo + so..mi + so], s[mi + so..hi + so]);
    var i, p, q := lo, lo, mi;
    while i < hi
      invariant Merging(dst[..], s, m, lo, i, p, mi, q, hi, so, do)
      invariant Frame(dst[..], old(dst[..]), lo + do, hi + do)
    {
      ghost var d := dst[..];
      if q >= hi || (p < mi && src[p + so] <= src[q + so]) {
        dst[i + do] := src[p + so];
        TakeLeft(d, dst[..], s, m, lo, i, p, mi, q, hi, so, do);
        p := p + 1;
      } else {
        dst[i + do] := src[q + so];
        TakeRight(d, dst[..], s, m, lo, i, p, mi, q, hi, so, do);
        q := q + 1;
      }
      i := i + 1;
    }
    MergingDone(dst[..], s, m, lo, i, p, mi, q, hi, so, do);
  }

  /** Sortedness of a range is sortedness of its slice. */
  lemma SortedSlice(s: seq<Long>, lo: int, hi: int)
    requires 0 <= lo <= hi <= |s|
    ensures Sorted(s, lo, hi) <==> Sorted(s[lo..hi], 0, hi - lo)
  {
    if Sorted(s[lo..hi], 0, hi - lo) {
      forall i, j | lo <= i < j < hi
        ensures s[i] <= s[j]
      {
        assert s[i] == s[lo..hi][i - lo] && s[j] == s[lo..hi][j - lo];
      }
    }
  }

  /** Copies [lo, hi) of src into dst, from the top down. */
  method CopyRun(src: array<Long>, so: int, dst: array<Long>, do: int, lo: int, hi: int)
    requires src != dst && lo <= hi
    requires 0 <= lo + so && hi + so <= src.Length && 0 <= lo + do && hi + do <= dst.Length
    modifies dst
    ensures Frame(dst[..], old(dst[..]), lo + do, hi + do)
    ensures dst[lo + do..hi + do] == src[lo + so..hi + so]
  {
    var i := hi - 1;
    while i >= lo
      invariant lo - 1 <= i < hi && Frame(dst[..], old(dst[..]), lo + do, hi + do)
      invariant forall j :: i + do < j < hi + do ==> dst[j] == src[j - do + so]
    {
      dst[i + do] := src[i + so];
      i := i - 1;
    }
    ghost var x, y := dst[lo + do..hi + do], src[lo + so..hi + so];
    assert forall j :: 0 <= j < |x| ==> x[j] == y[j];
  }

  // ---------------------------------------------------------------------------------------------
  // One merge pass
  // ---------------------------------------------------------------------------------------------
  // A pass is specified on the block t = [left, end) of the source taken as a sequence of its own,
  // with the run boundaries made relative to left: b[i] == r[i] - left.

  /** The boundaries r, made relative to left. */
  ghost function Rel(r: seq<int>, left: int): (b: seq<int>)
    ensures |b| == |r| && forall i :: 0 <= i < |r| ==> b[i] == r[i] - left
  {
    seq(|r|, i requires 0 <= i < |r| => r[i] - left)
  }

  /** Boundaries span [left, end) exactly when the relative ones span [0, end - left). */
  lemma SpansRel(r: seq<int>, count: int, left: int, end: int)
    ensures Spans(r, count, left, end) <==> Spans(Rel(r, left), count, 0, end - left)
  {
    var b := Rel(r, left);
    if Spans(b, count, 0, end - left) {
      forall i, j | 0 <= i < j <= count
        ensures r[i] < r[j]
      {
        assert b[i] < b[j];
      }
      forall i | 0 <= i <= count
        ensures left <= r[i] <= end
      {
        assert 0 <= b[i] <= end - left;
      }
    }
  }

  /**
   * What a merge pass writes for the runs of t from run k on: each pair of adjacent runs merged, and
   * a last unpaired run copied as it is.
   */
  ghost function Pass(t: seq<Long>, b: seq<int>, count: int, k: int): seq<Long>
    requires Spans(b, count, 0, |t|) && 0 <= k <= count
    decreases count - k
  {
    if k + 2 <= count then Merge(t[b[k]..b[k + 1]], t[b[k + 1]..b[k + 2]]) + Pass(t, b, count, k + 2)
    else t[b[k]..]
  }

  /** The pass from run k on fills [b[k], |t|). */
  lemma {:induction false} PassLength(t: seq<Long>, b: seq<int>, count: int, k: int)
    requires Spans(b, count, 0, |t|) && 0 <= k <= count
    ensures |Pass(t, b, count, k)| == |t| - b[k]
    decreases count - k
  {
    if k + 2 <= count {
      PassLength(t, b, count, k + 2);
      MergeLength(t[b[k]..b[k + 1]], t[b[k + 1]..b[k + 2]]);
    }
  }

  /** Prepending a merge of t[p..mi) and t[mi..hi) to a permutation of t[hi..). */
  lemma PrependMultiset(t: seq<Long>, x: seq<Long>, p: int, mi: int, hi: int)
    requires 0 <= p <= mi <= hi <= |t| && multiset(x) == multiset(t[hi..])
    ensures multiset(Merge(t[p..mi], t[mi..hi]) + x) == multiset(t[p..])
  {
    MergeMultiset(t[p..mi], t[mi..hi]);
    assert t[p..] == t[p..hi] + t[hi..];
    assert t[p..hi] == t[p..mi] + t[mi..hi];
  }

  /** The pass from run k on holds exactly the elements of t[b[k]..). */
  lemma {:induction false} PassMultiset(t: seq<Long>, b: seq<int>, count: int, k: int)
    requires Spans(b, count, 0, |t|) && 0 <= k <= count
    ensures multiset(Pass(t, b, count, k)) == multiset(t[b[k]..])
    decreases count - k
  {
    if k + 2 <= count {
      PassMultiset(t, b, count, k + 2);
      PrependMultiset(t, Pass(t, b, count, k + 2), b[k], b[k + 1], b[k + 2]);
    }
  }

  /** A slice of the second part of a concatenation. */
  lemma AppendSlice(m: seq<Long>, p: seq<Long>, lo: int, hi: int)
    requires 0 <= lo <= hi <= |p|
    ensures (m + p)[|m| + lo..|m| + hi] == p[lo..hi] && (m + p)[..|m|] == m && (m + p)[|m| + lo..] == p[lo..]
  {
  }

  /**
   * The pair of runs starting at j, n pairs after k, sits at [b[j], b[j + 2]) of the pass, counted
   * from b[k].
   */
  lemma {:induction false} PassPair(t: seq<Long>, b: seq<int>, count: int, k: int, j: int, n: nat)
    requires Spans(b, count, 0, |t|) && 0 <= k && j == k + 2 * n && j + 2 <= count
    ensures b[k] <= b[j] < b[j + 2] && b[j + 2] - b[k] <= |Pass(t, b, count, k)|
    ensures Pass(t, b, count, k)[b[j] - b[k]..b[j + 2] - b[k]] == Merge(t[b[j]..b[j + 1]], t[b[j + 1]..b[j + 2]])
    decreases n
  {
    var m := Merge(t[b[k]..b[k + 1]], t[b[k + 1]..b[k + 2]]);
    var p := Pass(t, b, count, k + 2);
    assert Pass(t, b, count, k) == m + p;
    MergeLength(t[b[k]..b[k + 1]], t[b[k + 1]..b[k + 2]]);
    PassLength(t, b, count, k + 2);
    if n == 0 {
      AppendSlice(m, p, 0, 0);
    } else {
      PassPair(t, b, count, k + 2, j, n - 1);
      AppendSlice(m, p, b[j] - b[k + 2], b[j + 2] - b[k + 2]);
    }
  }

  /** The last run, n pairs after k, of an odd number of runs is copied to [b[count - 1], |t|). */
  lemma {:induction false} PassLast(t: seq<Long>, b: seq<int>, count: int, k: int, n: nat)
    requires Spans(b, count, 0, |t|) && 0 <= k && count == k + 2 * n + 1
    ensures b[k] <= b[count - 1] <= |t| && |Pass(t, b, count, k)| == |t| - b[k]
    ensures Pass(t, b, count, k)[b[count - 1] - b[k]..] == t[b[count - 1]..]
    decreases n
  {
    PassLength(t, b, count, k);
    if n > 0 {
      var m := Merge(t[b[k]..b[k + 1]], t[b[k + 1]..b[k + 2]]);
      var p := Pass(t, b, count, k + 2);
      assert Pass(t, b, count, k) == m + p;
      MergeLength(t[b[k]..b[k + 1]], t[b[k + 1]..b[k + 2]]);
      PassLast(t, b, count, k + 2, n - 1);
      AppendSlice(m, p, b[count - 1] - b[k + 2], b[count - 1] - b[k + 2]);
    }
  }

  /** A merged pair of sorted runs is sorted. */
  lemma PairSorted(d: seq<Long>, t: seq<Long>, lo: int, mi: int, hi: int)
    requires 0 <= lo <= mi <= hi <= |t| && hi <= |d|
    requires Sorted(t, lo, mi) && Sorted(t, mi, hi) && d[lo..hi] == Merge(t[lo..mi], t[mi..hi])
    ensures Sorted(d, lo, hi)
  {
    SortedSlice(t, lo, mi);
    SortedSlice(t, mi, hi);
    MergeSorted(t[lo..mi], t[mi..hi]);
    SortedSlice(d, lo, hi);
  }

  /** Pair i of the whole pass sits at [b[2 * i], b[2 * i + 2]). */
  lemma PassPairAt(t: seq<Long>, b: seq<int>, count: int, i: nat)
    requires Spans(b, count, 0, |t|) && 2 * i + 2 <= count
    ensures b[2 * i + 2] <= |Pass(t, b, count, 0)|
    ensures Pass(t, b, count, 0)[b[2 * i]..b[2 * i + 2]] == Merge(t[b[2 * i]..b[2 * i + 1]], t[b[2 * i + 1]..b[2 * i + 2]])
  {
    PassPair(t, b, count, 0, 2 * i, i);
    assert b[0] == 0;
  }

  /** Pair i of a pass over sorted runs comes out sorted. */
  lemma PassPairSorted(t: seq<Long>, b: seq<int>, count: int, i: nat)
    requires Spans(b, count, 0, |t|) && 2 * i + 2 <= count
    requires RunSorted(t, b, 2 * i) && RunSorted(t, b, 2 * i + 1)
    ensures Sorted(Pass(t, b, count, 0), b[2 * i], b[2 * i + 2])
  {
    PassPairAt(t, b, count, i);
    PairSorted(Pass(t, b, count, 0), t, b[2 * i], b[2 * i + 1], b[2 * i + 2]);
  }

  /** The last run of a pass over an odd number of sorted runs is copied, so it stays sorted. */
  lemma PassLastSorted(t: seq<Long>, b: seq<int>, count: int, h: nat)
    requires Spans(b, count, 0, |t|) && count == 2 * h + 1 && RunSorted(t, b, 2 * h)
    ensures Sorted(Pass(t, b, count, 0), b[2 * h], |t|)
  {
    var d := Pass(t, b, count, 0);
    PassLast(t, b, count, 0, h);
    SortedSlice(t, b[2 * h], |t|);
    SortedSlice(d, b[2 * h], |t|);
  }

  /** Every other boundary of count runs, and the end, are the boundaries of last == (count + 1) / 2 runs. */
  lemma EveryOther(b: seq<int>, count: int, n: int, b': seq<int>, last: int)
    requires Spans(b, count, 0, n) && (count == 2 * last || count == 2 * last - 1)
    requires last < |b'| && (forall j :: 0 <= j < last ==> b'[j] == b[2 * j]) && b'[last] == n
    ensures Spans(b', last, 0, n)
  {
    forall i, j | 0 <= i < j <= last
      ensures b'[i] < b'[j]
    {
      if j < last {
        assert b[2 * i] < b[2 * j];
      } else {
        assert b[2 * i] < b[count];
      }
    }
    forall i | 0 <= i <= last
      ensures 0 <= b'[i] <= n
    {
      if i < last {
        assert 0 <= b[2 * i] <= n;
      }
    }
  }

  /** Each run of a pass over sorted runs is sorted. */
  lemma PassSorted(t: seq<Long>, b: seq<int>, count: int, b': seq<int>, last: int)
    requires Runs(t, b, count, 0, |t|) && (count == 2 * last || count == 2 * last - 1)
    requires last < |b'| && (forall j :: 0 <= j < last ==> b'[j] == b[2 * j]) && b'[last] == |t|
    ensures forall i :: 0 <= i < last ==> RunSorted(Pass(t, b, count, 0), b', i)
  {
    forall i | 0 <= i < last
      ensures RunSorted(Pass(t, b, count, 0), b', i)
    {
      assert RunSorted(t, b, 2 * i);
      if 2 * i + 2 <= count {
        assert RunSorted(t, b, 2 * i + 1);
        PassPairSorted(t, b, count, i);
      } else {
        PassLastSorted(t, b, count, i);
      }
    }
  }

  /**
   * A merge pass over count sorted runs leaves last == (count + 1) / 2 sorted runs, at every other
   * boundary, holding exactly the elements it was given.
   */
  lemma PassRuns(t: seq<Long>, b: seq<int>, count: int, b': seq<int>, last: int)
    requires Runs(t, b, count, 0, |t|) && (count == 2 * last || count == 2 * last - 1)
    requires last < |b'| && (forall j :: 0 <= j < last ==> b'[j] == b[2 * j]) && b'[last] == |t|
    ensures Runs(Pass(t, b, count, 0), b', last, 0, |t|)
    ensures multiset(Pass(t, b, count, 0)) == multiset(t)
  {
    PassLength(t, b, count, 0);
    EveryOther(b, count, |t|, b', last);
    PassSorted(t, b, count, b', last);
    PassMultiset(t, b, count, 0);
  }

  /** Writing a block [lo, hi) of d after [left, lo) keeps what was written before it. */
  lemma BlockWritten(d: seq<Long>, d': seq<Long>, d0: seq<Long>, left: int, lo: int, hi: int)
    requires Frame(d, d0, left, lo) && Frame(d', d, lo, hi) && left <= lo
    ensures Frame(d', d0, left, hi) && d'[left..lo] == d[left..lo]
  {
    assert d'[..left] == d'[..lo][..left] && d[..left] == d[..lo][..left];
    assert d'[hi..] == d[hi..];
    assert d[hi..] == d[lo..][hi - lo..] && d0[hi..] == d0[lo..][hi - lo..];
    assert d'[left..lo] == d'[..lo][left..] && d[left..lo] == d[..lo][left..];
  }

  /** A block written after [left, lo) extends the contents written so far. */
  lemma BlockAppended(d: seq<Long>, d': seq<Long>, d0: seq<Long>, left: int, lo: int, hi: int, x: seq<Long>,
                      y: seq<Long>)
    requires Frame(d, d0, left, lo) && Frame(d', d, lo, hi) && left <= lo
    requires d[left..lo] == x && d'[lo..hi] == y
    ensures Frame(d', d0, left, hi) && d'[left..hi] == x + y
  {
    BlockWritten(d, d', d0, left, lo, hi);
    assert d'[left..hi] == d'[left..lo] + d'[lo..hi];
  }

  /** [lo, hi) of the block [left, end) of s, read at offset off. */
  lemma BlockSlice(s: seq<Long>, off: int, left: int, end: int, lo: int, hi: int)
    requires left <= lo <= hi <= end && 0 <= left + off && end + off <= |s|
    ensures s[left + off..end + off][lo - left..hi - left] == s[lo + off..hi + off]
  {
    var u := s[left + off..end + off];
    forall i | lo - left <= i < hi - left
      ensures u[i] == s[i + left + off]
    {
    }
  }

  /**
   * The block t = s[left + so..end + so] of s, read at offset so, with count runs bounded by r, and
   * by b relative to left.
   */
  ghost predicate Block(s: seq<Long>, t: seq<Long>, b: seq<int>, r: seq<int>, count: int, left: int, end: int,
                        so: int) {
    Spans(b, count, 0, |t|) && b == Rel(r, left) && |t| == end - left
    && 0 <= left + so && end + so <= |s| && t == s[left + so..end + so]
  }

  /** The first w values of p are written at [lo, lo + w) of d, which is d0 elsewhere. */
  ghost predicate Written(d: seq<Long>, d0: seq<Long>, p: seq<Long>, lo: int, w: int) {
    0 <= w <= |p| && Frame(d, d0, lo, lo + w) && d[lo..lo + w] == p[..w]
  }

  /** Writing the next values of p after the first w, at [a, c) of d. */
  lemma WrittenStep(d: seq<Long>, d': seq<Long>, d0: seq<Long>, p: seq<Long>, lo: int, w: int, w': int, a: int,
                    c: int)
    requires Written(d, d0, p, lo, w) && w <= w' <= |p| && a == lo + w && c == lo + w'
    requires Frame(d', d, a, c) && d'[a..c] == p[w..w']
    ensures Written(d', d0, p, lo, w')
  {
    BlockAppended(d, d', d0, lo, lo + w, lo + w', p[..w], p[w..w']);
    assert p[..w'] == p[..w] + p[w..w'];
  }

  /** Once all of p is written, [lo, hi) of d holds p. */
  lemma WrittenAll(d: seq<Long>, d0: seq<Long>, p: seq<Long>, lo: int, hi: int)
    requires Written(d, d0, p, lo, |p|) && hi == lo + |p|
    ensures Frame(d, d0, lo, hi) && d[lo..hi] == p
  {
    assert p[..|p|] == p;
  }

  /** run[0..last] hold every other boundary of r, and run[last + 1..count] still those of r. */
  ghost predicate Moved(run: seq<int>, r: seq<int>, count: int, last: int) {
    |run| == |r| && 0 <= last && 2 * last <= count < |r| && (forall j :: 0 <= j <= last ==> run[j] == r[2 * j])
    && (forall j :: last < j <= count ==> run[j] == r[j])
  }

  /** The next pair of runs to merge is still where r puts it. */
  lemma MovedNext(run: seq<int>, r: seq<int>, b: seq<int>, count: int, left: int, end: int, last: int, k: int)
    requires Moved(run, r, count, last) && Spans(b, count, 0, end - left) && b == Rel(r, left)
    requires k == 2 * last + 2 <= count
    ensures run[k - 2] == r[2 * last] && run[k - 1] == r[2 * last + 1] && run[k] == r[2 * (last + 1)]
    ensures left <= r[2 * last] < r[2 * last + 1] < r[2 * (last + 1)] <= end
  {
    SpansRel(r, count, left, end);
  }

  /** Recording the end of the next merged run. */
  lemma MovedStep(run: seq<int>, run': seq<int>, r: seq<int>, count: int, last: int, hi: int)
    requires Moved(run, r, count, last) && 2 * last + 2 <= count && hi == r[2 * (last + 1)]
    requires run' == run[last + 1 := hi]
    ensures Moved(run', r, count, last + 1)
  {
  }

  /**
   * The pair of runs of s at [lo, mi) and [mi, hi), the runs 2 * last and 2 * last + 1 of the
   * block, merges into the values of the pass p at [b[2 * last], b[2 * (last + 1)]).
   */
  lemma PairWritten(s: seq<Long>, t: seq<Long>, b: seq<int>, r: seq<int>, p: seq<Long>, count: int, left: int,
                    end: int, so: int, do: int, last: int, lo: int, mi: int, hi: int)
    requires Block(s, t, b, r, count, left, end, so) && p == Pass(t, b, count, 0) && 0 <= last
    requires 2 * last + 2 <= count && lo == r[2 * last] && mi == r[2 * last + 1] && hi == r[2 * (last + 1)]
    ensures 0 <= b[2 * last] <= b[2 * (last + 1)] <= |p|
    ensures left + do + b[2 * last] == lo + do && left + do + b[2 * (last + 1)] == hi + do
    ensures Merge(s[lo + so..mi + so], s[mi + so..hi + so]) == p[b[2 * last]..b[2 * (last + 1)]]
  {
    SpansRel(r, count, left, end);
    assert 2 * (last + 1) == 2 * last + 2;
    assert b[2 * last] == lo - left && b[2 * last + 1] == mi - left && b[2 * last + 2] == hi - left;
    BlockSlice(s, so, left, end, lo, mi);
    BlockSlice(s, so, left, end, mi, hi);
    assert s[lo + so..mi + so] == t[b[2 * last]..b[2 * last + 1]];
    assert s[mi + so..hi + so] == t[b[2 * last + 1]..b[2 * last + 2]];
    PassPairAt(t, b, count, last);
  }

  /** The last run of s at [lo, end), the run 2 * last of an odd count, is the end of the pass p. */
  lemma LastWritten(s: seq<Long>, t: seq<Long>, b: seq<int>, r: seq<int>, p: seq<Long>, count: int, left: int,
                    end: int, so: int, do: int, last: int, lo: int)
    requires Block(s, t, b, r, count, left, end, so) && p == Pass(t, b, count, 0) && 0 <= last
    requires count == 2 * last + 1 && lo == r[count - 1]
    ensures 0 <= b[2 * last] <= |p| && left <= lo <= end && |p| == end - left
    ensures left + do + b[2 * last] == lo + do && left + do + |p| == end + do
    ensures s[lo + so..end + so] == p[b[2 * last]..|p|]
  {
    SpansRel(r, count, left, end);
    BlockSlice(s, so, left, end, lo, end);
    PassLast(t, b, count, 0, last);
    assert b[0] == 0;
  }

  /**
   * One step of a merge pass: merges the runs k - 2 and k - 1 of the block of src at left into the
   * same places of dst, and records their end as the end of the next run of dst.
   */
  method MergePair(src: array<Long>, so: int, dst: array<Long>, do: int, run: array<int>, count: int, left: int,
                   end: int, last: int, k: int, ghost s: seq<Long>, ghost t: seq<Long>, ghost b: seq<int>,
                   ghost r: seq<int>, ghost p: seq<Long>, ghost d0: seq<Long>)
    requires src != dst && src[..] == s && Block(s, t, b, r, count, left, end, so) && p == Pass(t, b, count, 0)
    requires 0 <= left + do && end + do <= dst.Length
    requires k == 2 * last + 2 <= count && Moved(run[..], r, count, last)
    requires Written(dst[..], d0, p, left + do, b[2 * last])
    modifies dst, run
    ensures Moved(run[..], r, count, last + 1) && Written(dst[..], d0, p, left + do, b[2 * (last + 1)])
  {
    ghost var d, rn := dst[..], run[..];
    MovedNext(rn, r, b, count, left, end, last, k);
    var lo, mi, hi := run[k - 2], run[k - 1], run[k];
    PairWritten(s, t, b, r, p, count, left, end, so, do, last, lo, mi, hi);
    MergeRuns(src, so, dst, do, lo, mi, hi);
    WrittenStep(d, dst[..], d0, p, left + do, b[2 * last], b[2 * (last + 1)], lo + do, hi + do);
    run[last + 1] := hi;
    MovedStep(rn, run[..], r, count, last, hi);
  }

  /**
   * The end of a merge pass over an odd number of runs: copies the last run of the block of src at
   * left into the same places of dst, and records end as the end of the last run of dst.
   */
  method CopyLast(src: array<Long>, so: int, dst: array<Long>, do: int, run: array<int>, count: int, left: int,
                  end: int, last: int, ghost s: seq<Long>, ghost t: seq<Long>, ghost b: seq<int>, ghost r: seq<int>,
                  ghost p: seq<Long>, ghost d0: seq<Long>)
    requires src != dst && src[..] == s && Block(s, t, b, r, count, left, end, so) && p == Pass(t, b, count, 0)
    requires 0 <= left + do && end + do <= dst.Length
    requires count == 2 * last + 1 && Moved(run[..], r, count, last)
    requires Written(dst[..], d0, p, left + do, b[2 * last])
    modifies dst, run
    ensures Written(dst[..], d0, p, left + do, |p|)
    ensures (forall j :: 0 <= j <= last ==> run[j] == r[2 * j]) && run[last + 1] == end
  {
    ghost var d := dst[..];
    var lo := run[count - 1];
    LastWritten(s, t, b, r, p, count, left, end, so, do, last, lo);
    CopyRun(src, so, dst, do, lo, end);
    WrittenStep(d, dst[..], d0, p, left + do, b[2 * last], |p|, lo + do, end + do);
    run[last + 1] := end;
  }

  /**
   * One merge pass: merges each pair of adjacent runs of src into dst and copies a last unpaired
   * run, leaving in run the boundaries of the runs of dst.
   */
  method MergePass(src: array<Long>, so: int, dst: array<Long>, do: int, run: array<int>, count: int, left: int,
                   end: int, ghost s: seq<Long>, ghost t: seq<Long>, ghost b: seq<int>, ghost r: seq<int>)
    returns (last: int)
    requires src != dst && 1 < count && src[..] == s && run[..] == r && Block(s, t, b, r, count, left, end, so)
    requires 0 <= left + do && end + do <= dst.Length
    modifies dst, run
    ensures (count == 2 * last || count == 2 * last - 1) && Frame(dst[..], old(dst[..]), left + do, end + do)
    ensures dst[left + do..end + do] == Pass(t, b, count, 0)
    ensures (forall j :: 0 <= j < last ==> run[j] == r[2 * j]) && run[last] == end
  {
    ghost var d0 := dst[..];
    ghost var p := Pass(t, b, count, 0);
    PassLength(t, b, count, 0);
    last := 0;
    var k := 2;
    while k <= count
      invariant k == 2 * last + 2 && k <= count + 2 && Moved(run[..], r, count, last) && src[..] == s
      invariant Written(dst[..], d0, p, left + do, b[2 * last])
    {
      MergePair(src, so, dst, do, run, count, left, end, last, k, s, t, b, r, p, d0);
      last, k := last + 1, k + 2;
    }
    if k - 2 < count {
      CopyLast(src, so, dst, do, run, count, left, end, last, s, t, b, r, p, d0);
      last := last + 1;
    } else {
      assert b[2 * last] == |p|;
    }
    WrittenAll(dst[..], d0, p, left + do, end + do);
  }

  // ---------------------------------------------------------------------------------------------
  // All merge passes
  // ---------------------------------------------------------------------------------------------

  /** After a merge pass the block holds its runs and exactly the elements it held before. */
  method MergeRound(src: array<Long>, so: int, dst: array<Long>, do: int, run: array<int>, count: int, left: int,
                    end: int, ghost t: seq<Long>, ghost a: array<Long>, ghost a0: seq<Long>)
    returns (last: int, ghost t': seq<Long>)
    requires src != dst && 1 < count && Block(src[..], t, Rel(run[..], left), run[..], count, left, end, so)
    requires Runs(t, Rel(run[..], left), count, 0, end - left)
    requires 0 <= left + do && end + do <= dst.Length
    requires (a == dst ==> do == 0) && Frame(a[..], a0, left, end)
    modifies dst, run
    ensures count == 2 * last || count == 2 * last - 1
    ensures Frame(a[..], a0, left, end)
    ensures Block(dst[..], t', Rel(run[..], left), run[..], last, left, end, do)
    ensures Runs(t', Rel(run[..], left), last, 0, end - left) && multiset(t') == multiset(t)
  {
    ghost var s, r := src[..], run[..];
    ghost var b := Rel(r, left);
    last := MergePass(src, so, dst, do, run, count, left, end, s, t, b, r);
    t' := dst[left + do..end + do];
    ghost var b' := Rel(run[..], left);
    forall j | 0 <= j < last
      ensures b'[j] == b[2 * j]
    {
    }
    PassRuns(t, b, count, b', last);
  }

  /** A block of one run, read at offset 0, is the sorted range [left, end) of s. */
  lemma SingleRun(s: seq<Long>, t: seq<Long>, b: seq<int>, r: seq<int>, left: int, end: int)
    requires Block(s, t, b, r, 1, left, end, 0) && Runs(t, b, 1, 0, end - left)
    ensures Sorted(s, left, end) && s[left..end] == t
  {
    assert RunSorted(t, b, 0);
    SortedSlice(s, left, end);
  }

  /** 2 to the power j. */
  ghost function Pow2(j: nat): int {
    if j == 0 then 1 else 2 * Pow2(j - 1)
  }

  /** The number of merge passes that leave a single run out of count runs: each pass halves count, rounding up. */
  ghost function Passes(count: int): nat
    decreases count
  {
    if count <= 1 then 0 else 1 + Passes(count - count / 2)
  }

  /** An even number of passes is left for count runs. */
  ghost predicate EvenPasses(count: int) {
    Passes(count) % 2 == 0
  }

  /** A pass that leaves last runs out of count runs uses up one pass. */
  lemma PassesStep(count: int, last: int)
    requires 1 < count && (count == 2 * last || count == 2 * last - 1)
    ensures Passes(count) == Passes(last) + 1 && (EvenPasses(count) <==> !EvenPasses(last))
  {
    assert count - count / 2 == last;
  }

  /** Between 2^(j - 1) and 2^j runs take j passes. */
  lemma {:induction false} PassesBetween(count: int, j: nat)
    requires 1 <= j && Pow2(j - 1) < count <= Pow2(j)
    ensures Passes(count) == j
    decreases j
  {
    if j > 1 {
      assert Pow2(j) == 2 * Pow2(j - 1) && Pow2(j - 1) == 2 * Pow2(j - 2);
      PassesBetween(count - count / 2, j - 1);
    }
  }

  /**
   * The alternation base: odd is 0 exactly when an odd number of passes is ahead, so that a merge
   * that starts from the workspace ends in the buffer.
   */
  method AlternationBase(count: int) returns (odd: Byte)
    requires 1 < count
    ensures odd == 0 || odd == 1
    ensures odd == 0 <==> !EvenPasses(count)
  {
    odd := 0;
    var n := 2;
    ghost var j := 1;
    while n < count
      invariant 1 <= j && n == Pow2(j) && Pow2(j - 1) < count && (odd == 0 || odd == 1)
      invariant odd == 0 <==> j % 2 == 1
      decreases count - n
    {
      n, odd, j := 2 * n, 1 - odd, j + 1;
    }
    PassesBetween(count, j);
  }

  /** src and dst are the buffer a and the workspace work, in one order or the other, with their offsets. */
  ghost predicate Roles(src: array<Long>, so: int, dst: array<Long>, do: int, a: array<Long>, work: array<Long>,
                        wo: int) {
    (src == a && so == 0 && dst == work && do == wo) || (src == work && so == wo && dst == a && do == 0)
  }

  /**
   * Merges the count sorted runs of the block t, held by src, pass after pass, swapping the roles of
   * a and work after each pass, until a single run is left in a.
   */
  method MergeAll(a: array<Long>, work: array<Long>, wo: int, src: array<Long>, so: int, dst: array<Long>, do: int,
                  run: array<int>, count: int, left: int, end: int, ghost t: seq<Long>)
    requires a != work && Roles(src, so, dst, do, a, work, wo) && 1 <= count && (src == a <==> EvenPasses(count))
    requires 0 <= left <= end <= a.Length && 0 <= left + wo && end + wo <= work.Length
    requires Block(src[..], t, Rel(run[..], left), run[..], count, left, end, so)
    requires Runs(t, Rel(run[..], left), count, 0, end - left)
    modifies a, work, run
    ensures Frame(a[..], old(a[..]), left, end) && Sorted(a[..], left, end) && multiset(a[left..end]) == multiset(t)
  {
    var src, so, dst, do, count := src, so, dst, do, count;
    ghost var u, a0 := t, a[..];
    while count > 1
      invariant Roles(src, so, dst, do, a, work, wo) && 1 <= count && (src == a <==> EvenPasses(count))
      invariant Block(src[..], u, Rel(run[..], left), run[..], count, left, end, so)
      invariant Runs(u, Rel(run[..], left), count, 0, end - left) && multiset(u) == multiset(t)
      invariant Frame(a[..], a0, left, end)
      decreases count
    {
      var last;
      last, u := MergeRound(src, so, dst, do, run, count, left, end, u, a, a0);
      PassesStep(count, last);
      src, so, dst, do, count := dst, do, src, so, last;
    }
    SingleRun(a[..], u, Rel(run[..], left), run[..], left, end);
  }

  // ---------------------------------------------------------------------------------------------
  // The entry point
  // ---------------------------------------------------------------------------------------------

  /** A sorted range of s is a sorted range of the block [left, end) of s, shifted by left. */
  lemma SortedShift(s: seq<Long>, left: int, end: int, lo: int, hi: int)
    requires 0 <= left <= lo <= hi <= end <= |s| && Sorted(s, lo, hi)
    ensures Sorted(s[left..end], lo - left, hi - left)
  {
    var t := s[left..end];
    forall i, j | lo - left <= i < j < hi - left
      ensures t[i] <= t[j]
    {
      assert t[i] == s[i + left] && t[j] == s[j + left];
    }
  }

  /** The runs of [left, end) of s are the runs of the block s[left..end], at boundaries relative to left. */
  lemma RunsRel(s: seq<Long>, r: seq<int>, count: int, left: int, end: int)
    requires Runs(s, r, count, left, end)
    ensures Runs(s[left..end], Rel(r, left), count, 0, end - left)
  {
    SpansRel(r, count, left, end);
    var t, b := s[left..end], Rel(r, left);
    forall i | 0 <= i < count
      ensures RunSorted(t, b, i)
    {
      assert RunSorted(s, r, i);
      SortedShift(s, left, end, r[i], r[i + 1]);
    }
  }

  /** A range whose elements were rearranged among themselves, with nothing else changed. */
  lemma FramePerm(t: seq<Long>, s: seq<Long>, lo: int, hi: int)
    requires Frame(t, s, lo, hi) && multiset(t[lo..hi]) == multiset(s[lo..hi])
    ensures Perm(t, s, lo, hi)
  {
    assert t == t[..lo] + t[lo..hi] + t[hi..];
    assert s == s[..lo] + s[lo..hi] + s[hi..];
  }

  /** The runs of [left, end) of s, copied to d at offset so, as a block of d. */
  lemma BlockStart(d: seq<Long>, s: seq<Long>, r: seq<int>, count: int, left: int, end: int, so: int)
    requires Runs(s, r, count, left, end) && 0 <= left + so && end + so <= |d|
    requires d[left + so..end + so] == s[left..end]
    ensures Block(d, s[left..end], Rel(r, left), r, count, left, end, so)
    ensures Runs(s[left..end], Rel(r, left), count, 0, end - left)
  {
    RunsRel(s, r, count, left, end);
  }

  /**
   * Merges count > 1 sorted runs covering a[left..end): takes the workspace work[workBase..] when
   * it is there and large enough, and a new one otherwise, and starts from the workspace, after
   * copying the range there, exactly when the number of passes is odd.
   */
  method MergeDetected(a: array<Long>, left: int, end: int, run: array<int>, count: int, work: array?<Long>,
                       workBase: int, workLen: int)
    requires 1 < count && Runs(a[..], run[..], count, left, end) && work != a && (work != null ==> 0 <= workBase)
    modifies a, work, run
    ensures Perm(a[..], old(a[..]), left, end) && Sorted(a[..], left, end)
  {
    var odd := AlternationBase(count);
    var blen := end - left;
    var w, wb := work, workBase;
    if w == null || workLen < blen || wb + blen > w.Length {
      w := new Long[blen];
      wb := 0;
    }
    ghost var s := a[..];
    if odd == 0 {
      CopyRun(a, 0, w, wb - left, left, end);
      BlockStart(w[..], s, run[..], count, left, end, wb - left);
      MergeAll(a, w, wb - left, w, wb - left, a, 0, run, count, left, end, s[left..end]);
    } else {
      BlockStart(a[..], s, run[..], count, left, end, 0);
      MergeAll(a, w, wb - left, a, 0, w, wb - left, run, count, left, end, s[left..end]);
    }
    FramePerm(a[..], s, left, end);
  }

  /**
   * Sorts a[left..right], both included, into ascending order. A short range, or one that is not
   * made of a few natural runs, goes to the quicksort; a single run is left as it is; otherwise the
   * runs are merged.
   */
  method Sort(a: array<Long>, left: int, right: int, work: array?<Long>, workBase: int, workLen: int)
    requires 0 <= left <= right + 1 <= a.Length && work != a && (work != null ==> 0 <= workBase)
    modifies a, work
    ensures Perm(a[..], old(a[..]), left, right + 1) && Sorted(a[..], left, right + 1)
  {
    if right - left < QUICKSORT_THRESHOLD {
      QuickSort(a, left, right, true);
      return;
    }
    var run := new int[MAX_RUN_COUNT + 1];
    var count, abort, at := DetectRuns(a, left, right, run);
    ghost var s := a[..];
    if abort {
      QuickSort(a, left, right, true);
    } else {
      var end := right + 1;
      if run[count] == right {
        ghost var r := run[..];
        count := count + 1;
        run[count] := end;
        RunsExtend(s, s, r, run[..], count - 1, left, right, end, end);
      } else if count == 1 {
        assert RunSorted(s, run[..], 0);
        return;
      }
      MergeDetected(a, left, end, run, count, work, workBase, workLen);
    }
    PermTrans(a[..], s, old(a[..]), left, right + 1);
  }
}
