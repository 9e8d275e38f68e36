/**
 * Sorting a range of a long buffer: a merge of natural runs for large, structured ranges, and a
 * dual-pivot quicksort with insertion sorts for the rest.
 */
module LongSort {
  import opened JavaTypes

  /** The largest and smallest value of a Java `long`. */
  const MAX_LONG: int := 0x7FFF_FFFF_FFFF_FFFF
  const MIN_LONG: int := -0x8000_0000_0000_0000

  /** At most this many runs are merged; a range with more is not considered structured. */
  const MAX_RUN_COUNT: int := 67
  /** A run of equal elements longer than this many steps makes the range go to quicksort. */
  const MAX_RUN_LENGTH: int := 33
  /** Ranges spanning fewer indices than this are sorted by quicksort directly. */
  const QUICKSORT_THRESHOLD: int := 286
  /** Ranges shorter than this are sorted by insertion. */
  const INSERTION_SORT_THRESHOLD: int := 47

  // ---------------------------------------------------------------------------------------------
  // Specification
  // ---------------------------------------------------------------------------------------------

  /** s[lo..hi) is in non-decreasing order. */
  ghost predicate Sorted(s: seq<Long>, lo: int, hi: int) {
    0 <= lo && hi <= |s| && forall i, j :: lo <= i < j < hi ==> s[i] <= s[j]
  }

  /** s[lo..hi) is in non-decreasing order when the hole at h is ignored. */
  ghost predicate SortedExcept(s: seq<Long>, lo: int, hi: int, h: int) {
    0 <= lo && hi <= |s| && forall i, j :: lo <= i < j < hi && i != h && j != h ==> s[i] <= s[j]
  }

  /** Every element of s[lo..hi) lies between low and high, both included. */
  ghost predicate Within(s: seq<Long>, lo: int, hi: int, low: int, high: int) {
    0 <= lo && hi <= |s| && forall i :: lo <= i < hi ==> low <= s[i] as int <= high
  }

  /** t and s agree outside [lo, hi). */
  ghost predicate Frame(t: seq<Long>, s: seq<Long>, lo: int, hi: int) {
    |t| == |s| && 0 <= lo <= hi <= |s| && t[..lo] == s[..lo] && t[hi..] == s[hi..]
  }

  /** t is s with the elements of [lo, hi) rearranged. */
  ghost predicate Perm(t: seq<Long>, s: seq<Long>, lo: int, hi: int) {
    Frame(t, s, lo, hi) && multiset(t) == multiset(s)
  }

  lemma PermRefl(s: seq<Long>, lo: int, hi: int)
    requires 0 <= lo <= hi <= |s|
    ensures Perm(s, s, lo, hi)
  {
  }

  lemma PermTrans(u: seq<Long>, t: seq<Long>, s: seq<Long>, lo: int, hi: int)
    requires Perm(u, t, lo, hi) && Perm(t, s, lo, hi)
    ensures Perm(u, s, lo, hi)
  {
  }

  /** A rearrangement of a range is a rearrangement of any range around it. */
  lemma PermWiden(t: seq<Long>, s: seq<Long>, lo: int, hi: int, lo': int, hi': int)
    requires Perm(t, s, lo, hi) && 0 <= lo' <= lo && hi <= hi' <= |s|
    ensures Perm(t, s, lo', hi')
  {
    assert t[..lo'] == t[..lo][..lo'] && s[..lo'] == s[..lo][..lo'];
    assert t[hi'..] == t[hi..][hi' - hi..] && s[hi'..] == s[hi..][hi' - hi..];
  }

  /** A rearrangement of [plo, phi) keeps the multiset of every range around it. */
  lemma PermSlice(t: seq<Long>, s: seq<Long>, plo: int, phi: int, lo: int, hi: int)
    requires Perm(t, s, plo, phi) && 0 <= lo <= plo <= phi <= hi <= |s|
    ensures multiset(t[lo..hi]) == multiset(s[lo..hi])
  {
    MultisetMiddle(t, s, plo, phi);
    assert t[lo..hi] == t[..plo][lo..] + t[plo..phi] + t[phi..][..hi - phi];
    assert s[lo..hi] == s[..plo][lo..] + s[plo..phi] + s[phi..][..hi - phi];
  }

  /** Two sequences with the same multiset that agree outside [lo, hi) have the same multiset inside it. */
  lemma MultisetMiddle(t: seq<Long>, s: seq<Long>, lo: int, hi: int)
    requires Perm(t, s, lo, hi)
    ensures multiset(t[lo..hi]) == multiset(s[lo..hi])
  {
    var a, b, c, b' := t[..lo], t[lo..hi], t[hi..], s[lo..hi];
    assert t == a + b + c;
    assert s == a + b' + c;
    assert multiset(a) + multiset(b) + multiset(c) == multiset(a) + multiset(b') + multiset(c);
    forall v
      ensures multiset(b)[v] == multiset(b')[v]
    {
      assert (multiset(a) + multiset(b) + multiset(c))[v] == multiset(a)[v] + multiset(b)[v] + multiset(c)[v];
      assert (multiset(a) + multiset(b') + multiset(c))[v] == multiset(a)[v] + multiset(b')[v] + multiset(c)[v];
    }
  }

  /** A rearrangement of [plo, phi) keeps the bounds of every range around it. */
  lemma PermWithin(t: seq<Long>, s: seq<Long>, plo: int, phi: int, lo: int, hi: int, low: int, high: int)
    requires Perm(t, s, plo, phi) && lo <= plo <= phi <= hi && Within(s, lo, hi, low, high)
    ensures Within(t, lo, hi, low, high)
  {
    PermSlice(t, s, plo, phi, lo, hi);
    forall i | lo <= i < hi
      ensures low <= t[i] as int <= high
    {
      assert t[lo..hi][i - lo] == t[i];
      assert t[i] in multiset(s[lo..hi]);
      var j :| 0 <= j < hi - lo && s[lo..hi][j] == t[i];
      assert s[lo + j] == t[i];
    }
  }

  /** Exchanging two elements keeps the multiset. */
  lemma SwapMultiset(u: seq<Long>, i: int, j: int)
    requires 0 <= i < |u| && 0 <= j < |u|
    ensures multiset(u[i := u[j]][j := u[i]]) == multiset(u)
  {
  }

  /** A sorted range followed by an element not less than its last one stays sorted. */
  lemma SortedExtend(s: seq<Long>, lo: int, hi: int)
    requires Sorted(s, lo, hi) && lo < hi < |s| && s[hi - 1] <= s[hi]
    ensures Sorted(s, lo, hi + 1)
  {
    forall i, j | lo <= i < j < hi + 1
      ensures s[i] <= s[j]
    {
      if j == hi && i < hi - 1 {
        assert s[i] <= s[hi - 1];
      }
    }
  }

  /** Outside the rearranged range nothing moves. */
  lemma FrameAt(t: seq<Long>, s: seq<Long>, lo: int, hi: int, i: int)
    requires Frame(t, s, lo, hi) && 0 <= i < |s| && (i < lo || hi <= i)
    ensures t[i] == s[i]
  {
    if i < lo {
      assert t[i] == t[..lo][i] && s[i] == s[..lo][i];
    } else {
      assert t[i] == t[hi..][i - hi] && s[i] == s[hi..][i - hi];
    }
  }

  // ---------------------------------------------------------------------------------------------
  // Insertion sorts (ranges shorter than INSERTION_SORT_THRESHOLD)
  // ---------------------------------------------------------------------------------------------

  /**
   * s is s0 with the block s0[g..h) moved w places right, which leaves a hole of width w at g;
   * everything else is where it was.
   */
  ghost predicate Shifted(s: seq<Long>, s0: seq<Long>, g: int, h: int, w: int) {
    |s| == |s0| && 0 <= g <= h && 0 <= w && h + w <= |s| &&
    s[..g] == s0[..g] && s[g + w..h + w] == s0[g..h] && s[h + w..] == s0[h + w..]
  }

  lemma ShiftStart(s: seq<Long>, h: int, w: int)
    requires 0 <= h && 0 <= w && h + w <= |s|
    ensures Shifted(s, s, h, h, w)
  {
  }

  /** Moving s[k] w places right grows the shifted block by one. */
  lemma ShiftStep(s: seq<Long>, t: seq<Long>, s0: seq<Long>, k: int, h: int, w: int)
    requires Shifted(s, s0, k + 1, h, w) && 0 <= k && 0 < w && t == s[k + w := s[k]]
    ensures Shifted(t, s0, k, h, w) && s[k] == s0[k]
  {
    assert s[k] == s[..k + 1][k];
    assert t[..k] == s[..k];
    assert t[k + w..h + w] == [s[k]] + s[k + w + 1..h + w];
    assert s0[k..h] == [s0[k]] + s0[k + 1..h];
    assert t[h + w..] == s[h + w..];
  }

  /** s0 with its hole at h closed: s0[g..h) moves one place right and x goes to g. */
  ghost function Inserted(s0: seq<Long>, g: int, h: int, x: Long): seq<Long>
    requires 0 <= g <= h < |s0|
  {
    s0[..g] + [x] + s0[g..h] + s0[h + 1..]
  }

  lemma InsertedAt(s0: seq<Long>, g: int, h: int, x: Long, i: int)
    requires 0 <= g <= h < |s0| && 0 <= i < |s0|
    ensures |Inserted(s0, g, h, x)| == |s0|
    ensures Inserted(s0, g, h, x)[i] ==
      if i < g then s0[i] else if i == g then x else if i <= h then s0[i - 1] else s0[i]
  {
  }

  /** Closing the hole rearranges s0 with x put in the hole. */
  lemma InsertedPerm(s0: seq<Long>, lo: int, hi: int, g: int, h: int, x: Long)
    requires 0 <= lo <= g <= h < hi <= |s0|
    ensures Perm(Inserted(s0, g, h, x), s0[h := x], lo, hi)
  {
    var t := Inserted(s0, g, h, x);
    var u := s0[h := x];
    assert u == s0[..g] + s0[g..h] + [x] + s0[h + 1..] by {
      assert u == s0[..h] + [x] + s0[h + 1..];
      assert s0[..h] == s0[..g] + s0[g..h];
    }
    assert t[..lo] == u[..lo] by {
      assert t[..lo] == s0[..g][..lo];
      assert u[..lo] == s0[..g][..lo];
    }
    assert t[hi..] == u[hi..] by {
      assert t[hi..] == s0[h + 1..][hi - h - 1..];
      assert u[hi..] == s0[h + 1..][hi - h - 1..];
    }
  }

  /** Closing the hole where x belongs leaves the range sorted. */
  lemma InsertedSorted(s0: seq<Long>, lo: int, hi: int, g: int, h: int, x: Long)
    requires 0 <= lo <= g <= h < hi <= |s0|
    requires SortedExcept(s0, lo, hi, h) && forall q :: h < q < hi ==> x <= s0[q]
    requires forall q :: g <= q < h ==> x < s0[q]
    requires g == lo || s0[g - 1] <= x
    ensures Sorted(Inserted(s0, g, h, x), lo, hi)
  {
    var t := Inserted(s0, g, h, x);
    forall i, j | lo <= i < j < hi
      ensures t[i] <= t[j]
    {
      InsertedAt(s0, g, h, x, i);
      InsertedAt(s0, g, h, x, j);
      if i < g && j == g {
        assert s0[i] <= s0[g - 1] || i == g - 1;
      }
    }
  }

  /** The block shifted one place right with x written into the hole is the closed hole. */
  lemma ShiftedInsert(s: seq<Long>, t: seq<Long>, s0: seq<Long>, g: int, h: int, x: Long)
    requires Shifted(s, s0, g, h, 1) && h < |s0| && t == s[g := x]
    ensures t == Inserted(s0, g, h, x)
  {
    assert t[..g] == s[..g];
    assert t[g + 1..] == s[g + 1..h + 1] + s[h + 1..];
    assert t == t[..g] + [x] + t[g + 1..];
  }

  /**
   * The sink that started with a hole at h stopped with the hole at k + 1, and x goes there:
   * the range is sorted, and it rearranges s0 with x put in the hole.
   */
  lemma SinkDone(s: seq<Long>, t: seq<Long>, s0: seq<Long>, lo: int, hi: int, k: int, h: int, x: Long)
    requires 0 <= lo <= k + 1 <= h < hi <= |s0|
    requires Shifted(s, s0, k + 1, h, 1)
    requires SortedExcept(s0, lo, hi, h) && forall q :: h < q < hi ==> x <= s0[q]
    requires forall q :: k + 1 <= q < h ==> x < s0[q]
    requires k + 1 == lo || s[k] <= x
    requires t == s[k + 1 := x]
    ensures Perm(t, s0[h := x], lo, hi) && Sorted(t, lo, hi)
  {
    ShiftedInsert(s, t, s0, k + 1, h, x);
    if k + 1 > lo {
      assert s[k] == s[..k + 1][k];
    }
    InsertedPerm(s0, lo, hi, k + 1, h, x);
    InsertedSorted(s0, lo, hi, k + 1, h, x);
  }

  /** SinkDone for a hole at the end of a sorted range, filled with the value it held. */
  lemma InsertDone(s: seq<Long>, t: seq<Long>, s0: seq<Long>, lo: int, k: int, h: int, hi: int, x: Long)
    requires 0 <= lo <= k + 1 <= h && hi == h + 1 && hi <= |s0| && x == s0[h]
    requires Shifted(s, s0, k + 1, h, 1) && Sorted(s0, lo, h)
    requires forall q :: k + 1 <= q < h ==> x < s0[q]
    requires k + 1 == lo || s[k] <= x
    requires t == s[k + 1 := x]
    ensures Perm(t, s0, lo, hi) && Sorted(t, lo, hi)
  {
    SinkDone(s, t, s0, lo, hi, k, h, x);
    assert s0[h := x] == s0;
  }

  /**
   * Moves the elements of a[left..i] greater than x one place right, from the top down, and
   * stops at the first element not greater than x or at the left end of the range. The hole
   * is then at j + 1.
   */
  method ShiftLeftmost(a: array<Long>, left: int, i: int, x: Long) returns (j: int)
    requires 0 <= left <= i && i + 1 < a.Length
    modifies a
    ensures left - 1 <= j <= i
    ensures Shifted(a[..], old(a[..]), j + 1, i + 1, 1)
    ensures forall q :: j + 1 <= q < i + 1 ==> x < old(a[..])[q]
    ensures j + 1 == left || a[j] <= x
  {
    ghost var s0 := a[..];
    j := i;
    ghost var g := i + 1;
    ShiftStart(s0, i + 1, 1);
    while x < a[j]
      invariant left <= j <= i && g == j + 1 && Shifted(a[..], s0, g, i + 1, 1)
      invariant forall q :: g <= q < i + 1 ==> x < s0[q]
      decreases j
    {
      ghost var s := a[..];
      a[j + 1] := a[j];
      ShiftStep(s, a[..], s0, j, i + 1, 1);
      g := j;
      j := j - 1;
      if j + 1 == left {
        return;
      }
    }
  }

  /**
   * One step of the leftmost insertion sort: a[i + 1] is inserted into the sorted a[left..i + 1),
   * shifting the greater elements right, with an explicit check for the range's left end.
   */
  method InsertAt(a: array<Long>, left: int, i: int)
    requires 0 <= left <= i && i + 1 < a.Length
    requires Sorted(a[..], left, i + 1)
    modifies a
    ensures Perm(a[..], old(a[..]), left, i + 2)
    ensures Sorted(a[..], left, i + 2)
  {
    var ai := a[i + 1];
    var j := ShiftLeftmost(a, left, i, ai);
    ghost var s := a[..];
    a[j + 1] := ai;
    InsertDone(s, a[..], old(a[..]), left, j, i + 1, i + 2, ai);
  }

  /** The leftmost insertion sort: a[left..right] ends up sorted. */
  method InsertionSort(a: array<Long>, left: int, right: int)
    requires 0 <= left <= right + 1 <= a.Length
    modifies a
    ensures Perm(a[..], old(a[..]), left, right + 1)
    ensures Sorted(a[..], left, right + 1)
  {
    var i := left;
    PermRefl(a[..], left, right + 1);
    while i < right
      invariant left <= right ==> left <= i <= right && Sorted(a[..], left, i + 1)
      invariant right < left ==> i == left
      invariant Perm(a[..], old(a[..]), left, right + 1)
    {
      ghost var s := a[..];
      InsertAt(a, left, i);
      PermWiden(a[..], s, left, i + 2, left, right + 1);
      PermTrans(a[..], s, old(a[..]), left, right + 1);
      i := i + 1;
    }
  }

  /**
   * Moves the elements of a[lo..h) greater than x w places right, from the top down; the element
   * a[lo - 1], which is not greater than x, stops the scan without a range check. The hole of
   * width w is then at k + 1.
   */
  method ShiftOver(a: array<Long>, lo: int, h: int, x: Long, w: int) returns (k: int)
    requires 0 < lo <= h && 1 <= w && h + w <= a.Length && a[lo - 1] <= x
    modifies a
    ensures lo - 1 <= k < h
    ensures Shifted(a[..], old(a[..]), k + 1, h, w)
    ensures forall q :: k + 1 <= q < h ==> x < old(a[..])[q]
    ensures a[k] <= x && a[lo - 1] == old(a[lo - 1])
  {
    ghost var s0 := a[..];
    k := h - 1;
    ghost var g := h;
    ShiftStart(s0, h, w);
    while x < a[k]
      invariant lo - 1 <= k < h && g == k + 1 && Shifted(a[..], s0, g, h, w)
      invariant forall q :: g <= q < h ==> x < s0[q]
      invariant a[lo - 1] == old(a[lo - 1]) <= x
      decreases k
    {
      ghost var s := a[..];
      a[k + w] := a[k];
      ShiftStep(s, a[..], s0, k, h, w);
      g := k;
      k := k - 1;
    }
  }

  /**
   * Sinks x into the hole at h: the range a[lo..hi) without the hole is sorted, x is not greater
   * than anything right of the hole, and a[lo - 1] is not greater than x.
   */
  method Sink(a: array<Long>, lo: int, hi: int, h: int, x: Long)
    requires 0 < lo <= h < hi <= a.Length
    requires SortedExcept(a[..], lo, hi, h) && forall q :: h < q < hi ==> x <= a[..][q]
    requires a[lo - 1] <= x
    modifies a
    ensures Perm(a[..], old(a[..])[h := x], lo, hi)
    ensures Sorted(a[..], lo, hi)
  {
    var k := ShiftOver(a, lo, h, x, 1);
    ghost var s := a[..];
    a[k + 1] := x;
    SinkDone(s, a[..], old(a[..]), lo, hi, k, h, x);
  }

  /** The index form of the range after the greater of a pair has been placed. */
  ghost function Placed(s0: seq<Long>, g: int, h: int, y: Long, x1: Long): seq<Long>
    requires 0 <= g <= h && h + 2 <= |s0|
  {
    s0[..g] + [y, x1] + s0[g..h] + s0[h + 2..]
  }

  lemma PlacedAt(s0: seq<Long>, g: int, h: int, y: Long, x1: Long, i: int)
    requires 0 <= g <= h && h + 2 <= |s0| && 0 <= i < |s0|
    ensures |Placed(s0, g, h, y, x1)| == |s0|
    ensures Placed(s0, g, h, y, x1)[i] ==
      if i < g then s0[i] else if i == g then y else if i == g + 1 then x1
      else if i < h + 2 then s0[i - 2] else s0[i]
  {
  }

  /** The block shifted two places right with x1 written next to the hole. */
  lemma ShiftedPlace(s: seq<Long>, t: seq<Long>, s0: seq<Long>, k: int, h: int, x1: Long)
    requires Shifted(s, s0, k + 1, h, 2) && t == s[k + 2 := x1]
    ensures t == Placed(s0, k + 1, h, s[k + 1], x1)
  {
    var g := k + 1;
    assert t[..g] == s[..g];
    assert t[g + 2..] == s[g + 2..h + 2] + s[h + 2..];
    assert t == t[..g] + [s[g], x1] + t[g + 2..];
  }

  /** Moving a pair in front of a block keeps the multiset, in either order of the pair. */
  lemma PairMoved(p: seq<Long>, m: seq<Long>, r: seq<Long>, x1: Long, x2: Long, y1: Long, y2: Long)
    requires (x1 == y1 && x2 == y2) || (x1 == y2 && x2 == y1)
    ensures multiset(p + [x2, x1] + m + r) == multiset(p + m + [y1, y2] + r)
  {
    assert multiset([x2, x1]) == multiset([y1, y2]);
  }

  /** The pair x1, x2 written in front of the block s0[g..h) is a rearrangement of s0. */
  lemma PairMultiset(s0: seq<Long>, g: int, h: int, x1: Long, x2: Long)
    requires 0 <= g <= h && h + 2 <= |s0|
    requires (x1 == s0[h] && x2 == s0[h + 1]) || (x1 == s0[h + 1] && x2 == s0[h])
    ensures multiset(s0[..g] + [x2, x1] + s0[g..h] + s0[h + 2..]) == multiset(s0)
  {
    assert s0 == s0[..g] + s0[g..h] + [s0[h], s0[h + 1]] + s0[h + 2..] by {
      assert s0 == s0[..h] + s0[h..h + 2] + s0[h + 2..];
      assert s0[..h] == s0[..g] + s0[g..h];
    }
    PairMoved(s0[..g], s0[g..h], s0[h + 2..], x1, x2, s0[h], s0[h + 1]);
  }

  /** Putting x2 in the hole of the placed form rearranges the range with its pair. */
  lemma PlacedPerm(t: seq<Long>, s0: seq<Long>, lo: int, k: int, h: int, y: Long, x1: Long, x2: Long)
    requires 0 <= lo <= k + 1 <= h && h + 2 <= |s0| && t == Placed(s0, k + 1, h, y, x1)
    requires (x1 == s0[h] && x2 == s0[h + 1]) || (x1 == s0[h + 1] && x2 == s0[h])
    ensures Perm(t[k + 1 := x2], s0, lo, h + 2)
  {
    var g := k + 1;
    var u := t[g := x2];
    assert u == s0[..g] + [x2, x1] + s0[g..h] + s0[h + 2..];
    PairMultiset(s0, g, h, x1, x2);
    assert u[..lo] == s0[..g][..lo];
  }

  /**
   * After the greater element x1 of a pair has been placed at k + 2, the hole at k + 1 is ready
   * for the smaller element x2 to sink from.
   */
  lemma PlacedOrder(t: seq<Long>, s0: seq<Long>, lo: int, k: int, h: int, y: Long, x1: Long, x2: Long)
    requires 0 < lo <= k + 1 <= h && h + 2 <= |s0| && t == Placed(s0, k + 1, h, y, x1)
    requires Sorted(s0, lo, h) && x2 <= x1
    requires forall q :: k + 1 <= q < h ==> x1 < s0[q]
    requires k + 1 == lo || s0[k] <= x1
    ensures SortedExcept(t, lo, h + 2, k + 1)
    ensures forall q :: k + 1 < q < h + 2 ==> x2 <= t[q]
  {
    var g := k + 1;
    forall i, j | lo <= i < j < h + 2 && i != g && j != g
      ensures t[i] <= t[j]
    {
      PlacedAt(s0, g, h, y, x1, i);
      PlacedAt(s0, g, h, y, x1, j);
      if i < g && j == g + 1 {
        assert s0[i] <= s0[k] || i == k;
      }
    }
    forall q | g < q < h + 2
      ensures x2 <= t[q]
    {
      PlacedAt(s0, g, h, y, x1, q);
    }
  }

  /** The first half of a pair insertion: x1 has been placed at k + 2, leaving the hole at k + 1. */
  lemma PairHalf(s: seq<Long>, t: seq<Long>, s0: seq<Long>, lo: int, k: int, k0: int, x1: Long, x2: Long)
    requires 0 < lo <= k + 1 <= k0 && k0 + 2 <= |s0|
    requires Shifted(s, s0, k + 1, k0, 2) && Sorted(s0, lo, k0)
    requires (x1 == s0[k0] && x2 == s0[k0 + 1]) || (x1 == s0[k0 + 1] && x2 == s0[k0])
    requires x2 <= x1
    requires forall q :: k + 1 <= q < k0 ==> x1 < s0[q]
    requires s[k] <= x1
    requires t == s[k + 2 := x1]
    ensures SortedExcept(t, lo, k0 + 2, k + 1) && forall q :: k + 1 < q < k0 + 2 ==> x2 <= t[q]
    ensures Perm(t[k + 1 := x2], s0, lo, k0 + 2)
  {
    ShiftedPlace(s, t, s0, k, k0, x1);
    assert s[k] == s0[k] by {
      assert s[k] == s[..k + 1][k];
    }
    PlacedOrder(t, s0, lo, k, k0, s[k + 1], x1, x2);
    PlacedPerm(t, s0, lo, k, k0, s[k + 1], x1, x2);
  }

  /**
   * The first half of a pair insertion: the greater element of the pair a[k0], a[k0 + 1] is
   * placed into the sorted a[lo..k0), leaving the hole at k + 1 for the smaller one, x2.
   */
  method PlaceGreater(a: array<Long>, lo: int, k0: int) returns (k: int, x2: Long)
    requires 0 < lo <= k0 && k0 + 1 < a.Length
    requires Sorted(a[..], lo, k0) && Within(a[..], lo, k0 + 2, a[lo - 1] as int, MAX_LONG)
    modifies a
    ensures lo - 1 <= k < k0
    ensures SortedExcept(a[..], lo, k0 + 2, k + 1) && forall q :: k + 1 < q < k0 + 2 ==> x2 <= a[..][q]
    ensures a[lo - 1] <= x2
    ensures Perm(a[..][k + 1 := x2], old(a[..]), lo, k0 + 2)
  {
    var a1;
    a1, x2 := a[k0], a[k0 + 1];
    if a1 < x2 {
      x2 := a1;
      a1 := a[k0 + 1];
    }
    k := ShiftOver(a, lo, k0, a1, 2);
    ghost var s := a[..];
    a[k + 2] := a1;
    PairHalf(s, a[..], old(a[..]), lo, k, k0, a1, x2);
  }

  /**
   * One step of the pair insertion sort: the pair a[k0], a[k0 + 1] is inserted into the sorted
   * a[lo..k0), the greater element first and the smaller one from where the greater stopped.
   * The element a[lo - 1], not greater than any of them, is the sentinel.
   */
  method InsertPair(a: array<Long>, lo: int, k0: int)
    requires 0 < lo <= k0 && k0 + 1 < a.Length
    requires Sorted(a[..], lo, k0) && Within(a[..], lo, k0 + 2, a[lo - 1] as int, MAX_LONG)
    modifies a
    ensures Perm(a[..], old(a[..]), lo, k0 + 2)
    ensures Sorted(a[..], lo, k0 + 2)
  {
    var k, a2 := PlaceGreater(a, lo, k0);
    ghost var t := a[..];
    Sink(a, lo, k0 + 2, k + 1, a2);
    PermTrans(a[..], t[k + 1 := a2], old(a[..]), lo, k0 + 2);
  }

  /**
   * Skips the ascending prefix of a[left..right]: either the whole range is ascending, or it is
   * up to l, where the first descent is.
   */
  method SkipAscending(a: array<Long>, left: int, right: int) returns (l: int, done: bool)
    requires 0 <= left <= right + 1 <= a.Length
    ensures done ==> Sorted(a[..], left, right + 1)
    ensures !done ==> left < l <= right && Sorted(a[..], left, l) && a[l] < a[l - 1]
  {
    l := left;
    while true
      invariant left <= l && (l <= right ==> Sorted(a[..], left, l + 1)) && (right < l ==> l == left)
      decreases right - l
    {
      if l >= right {
        return l, true;
      }
      l := l + 1;
      if a[l] < a[l - 1] {
        return l, false;
      }
      SortedExtend(a[..], left, l);
    }
  }

  /**
   * A rearrangement of a[left..hi) within a rearrangement of a[left..right]: the whole is still a
   * rearrangement, the sentinel left of it does not move, and the bound still holds.
   */
  lemma PermGrow(t: seq<Long>, s: seq<Long>, s0: seq<Long>, left: int, hi: int, end: int, low: int)
    requires 0 < left <= hi <= end <= |s| && Perm(t, s, left, hi) && Perm(s, s0, left, end)
    requires s[left - 1] as int == low && Within(s, left, end, low, MAX_LONG)
    ensures Perm(t, s0, left, end) && t[left - 1] as int == low && Within(t, left, end, low, MAX_LONG)
  {
    PermWiden(t, s, left, hi, left, end);
    PermWithin(t, s, left, hi, left, end, low, MAX_LONG);
    FrameAt(t, s, left, hi, left - 1);
  }

  /**
   * Inserts the pairs a[k0], a[k0 + 1], a[k0 + 2], a[k0 + 3], ... of a[k0..right] into the sorted
   * a[left..k0), until at most one element is left; the sorted part then ends at k.
   */
  method InsertPairs(a: array<Long>, left: int, k0: int, right: int) returns (k: int)
    requires 0 < left < k0 <= right + 1 <= a.Length
    requires Sorted(a[..], left, k0) && Within(a[..], left, right + 1, a[left - 1] as int, MAX_LONG)
    modifies a
    ensures right <= k <= right + 1 && Sorted(a[..], left, k)
    ensures Perm(a[..], old(a[..]), left, right + 1)
    ensures a[left - 1] == old(a[left - 1]) && Within(a[..], left, right + 1, a[left - 1] as int, MAX_LONG)
  {
    ghost var low := a[left - 1] as int;
    PermRefl(a[..], left, right + 1);
    k := k0;
    var l := k + 1;
    while l <= right
      invariant left < k <= right + 1 && l == k + 1
      invariant Sorted(a[..], left, k)
      invariant Perm(a[..], old(a[..]), left, right + 1)
      invariant a[left - 1] as int == low && Within(a[..], left, right + 1, low, MAX_LONG)
      decreases right - l
    {
      ghost var s := a[..];
      InsertPair(a, left, k);
      PermGrow(a[..], s, old(a[..]), left, k + 2, right + 1, low);
      l := l + 1;
      k := l;
      l := l + 1;
    }
  }

  /**
   * The insertion sort of a part that is not leftmost: a[left - 1], which belongs to the part on
   * its left, is not greater than any element of a[left..right] and serves as sentinel. The
   * ascending prefix is skipped, the rest is inserted two elements at a time, and the last
   * element once more alone.
   */
  method PairInsertionSort(a: array<Long>, left: int, right: int)
    requires 0 < left <= right + 1 <= a.Length
    requires Within(a[..], left, right + 1, a[left - 1] as int, MAX_LONG)
    modifies a
    ensures Perm(a[..], old(a[..]), left, right + 1)
    ensures Sorted(a[..], left, right + 1)
  {
    var l, done := SkipAscending(a, left, right);
    if done {
      return;
    }
    var k := InsertPairs(a, left, l, right);
    var last := a[right];
    ghost var s := a[..];
    Sink(a, left, right + 1, right, last);
    assert s[right := last] == s;
    PermTrans(a[..], s, old(a[..]), left, right + 1);
  }

  // ---------------------------------------------------------------------------------------------
  // Dual-pivot quicksort
  // ---------------------------------------------------------------------------------------------

  /** Exchanges a[i] and a[j], both inside [lo, hi). */
  method Swap(a: array<Long>, i: int, j: int, ghost lo: int, ghost hi: int)
    requires 0 <= lo <= i < hi <= a.Length && lo <= j < hi
    modifies a
    ensures a[i] == old(a[j]) && a[j] == old(a[i])
    ensures forall q :: 0 <= q < a.Length && q != i && q != j ==> a[q] == old(a[q])
    ensures Perm(a[..], old(a[..]), lo, hi)
  {
    ghost var s := a[..];
    a[i], a[j] := a[j], a[i];
    SwapMultiset(s, i, j);
    assert a[..] == s[i := s[j]][j := s[i]];
  }

  /** Five sample indices strictly inside [left, right], in increasing order. */
  ghost predicate Samples(left: int, right: int, e1: int, e2: int, e3: int, e4: int, e5: int) {
    left < e1 < e2 < e3 < e4 < e5 < right
  }

  /** Inserts the second sample into the first. */
  method SortSample2(a: array<Long>, left: int, right: int, e1: int, e2: int)
    requires 0 <= left < e1 < e2 < right < a.Length
    modifies a
    ensures a[e1] <= a[e2]
    ensures forall q :: 0 <= q < a.Length && q != e1 && q != e2 ==> a[q] == old(a[q])
    ensures Perm(a[..], old(a[..]), left, right + 1)
  {
    PermRefl(a[..], left, right + 1);
    if a[e2] < a[e1] {
      Swap(a, e2, e1, left, right + 1);
    }
  }

  /** Inserts the third sample into the sorted first two. */
  method SortSample3(a: array<Long>, left: int, right: int, e1: int, e2: int, e3: int)
    requires 0 <= left < e1 < e2 < e3 < right < a.Length && a[e1] <= a[e2]
    modifies a
    ensures a[e1] <= a[e2] <= a[e3]
    ensures a[e3] == if old(a[e3]) < old(a[e2]) then old(a[e2]) else old(a[e3])
    ensures forall q :: 0 <= q < a.Length && q != e1 && q != e2 && q != e3 ==> a[q] == old(a[q])
    ensures Perm(a[..], old(a[..]), left, right + 1)
  {
    PermRefl(a[..], left, right + 1);
    if a[e3] < a[e2] {
      Swap(a, e3, e2, left, right + 1);
      if a[e2] < a[e1] {
        ghost var s := a[..];
        Swap(a, e2, e1, left, right + 1);
        PermTrans(a[..], s, old(a[..]), left, right + 1);
      }
    }
  }

  /** Inserts the fourth sample into the sorted first three. */
  method SortSample4(a: array<Long>, left: int, right: int, e1: int, e2: int, e3: int, e4: int)
    requires 0 <= left < e1 < e2 < e3 < e4 < right < a.Length && a[e1] <= a[e2] <= a[e3]
    modifies a
    ensures a[e1] <= a[e2] <= a[e3] <= a[e4]
    ensures a[e4] == if old(a[e4]) < old(a[e3]) then old(a[e3]) else old(a[e4])
    ensures forall q :: 0 <= q < a.Length && q != e1 && q != e2 && q != e3 && q != e4 ==> a[q] == old(a[q])
    ensures Perm(a[..], old(a[..]), left, right + 1)
  {
    PermRefl(a[..], left, right + 1);
    if a[e4] < a[e3] {
      Swap(a, e4, e3, left, right + 1);
      ghost var s := a[..];
      SortSample3(a, left, right, e1, e2, e3);
      PermTrans(a[..], s, old(a[..]), left, right + 1);
    }
  }

  /** Inserts the fifth sample into the sorted first four. */
  method SortSample5(a: array<Long>, left: int, right: int, e1: int, e2: int, e3: int, e4: int, e5: int)
    requires Samples(left, right, e1, e2, e3, e4, e5) && 0 <= left && right < a.Length
    requires a[e1] <= a[e2] <= a[e3] <= a[e4]
    modifies a
    ensures a[e1] <= a[e2] <= a[e3] <= a[e4] <= a[e5]
    ensures Perm(a[..], old(a[..]), left, right + 1)
  {
    PermRefl(a[..], left, right + 1);
    if a[e5] < a[e4] {
      Swap(a, e5, e4, left, right + 1);
      ghost var s := a[..];
      SortSample4(a, left, right, e1, e2, e3, e4);
      PermTrans(a[..], s, old(a[..]), left, right + 1);
    }
  }

  /**
   * Sorts the five samples by insertion, each new sample exchanged with the one before it while
   * it is smaller.
   */
  method SortFive(a: array<Long>, left: int, right: int, e1: int, e2: int, e3: int, e4: int, e5: int)
    requires Samples(left, right, e1, e2, e3, e4, e5) && 0 <= left && right < a.Length
    modifies a
    ensures a[e1] <= a[e2] <= a[e3] <= a[e4] <= a[e5]
    ensures Perm(a[..], old(a[..]), left, right + 1)
  {
    ghost var s0 := a[..];
    SortSample2(a, left, right, e1, e2);
    ghost var s1 := a[..];
    SortSample3(a, left, right, e1, e2, e3);
    PermTrans(a[..], s1, s0, left, right + 1);
    ghost var s2 := a[..];
    SortSample4(a, left, right, e1, e2, e3, e4);
    PermTrans(a[..], s2, s0, left, right + 1);
    ghost var s3 := a[..];
    SortSample5(a, left, right, e1, e2, e3, e4, e5);
    PermTrans(a[..], s3, s0, left, right + 1);
  }

  /** The five samples are strictly inside a range of at least INSERTION_SORT_THRESHOLD elements. */
  lemma SampleSpacing(left: int, right: int)
    requires 0 <= left && right - left + 1 >= INSERTION_SORT_THRESHOLD
    ensures var length := right - left + 1;
      var seventh := length / 8 + length / 64 + 1;
      var e3 := (left + right) / 2;
      Samples(left, right, e3 - 2 * seventh, e3 - seventh, e3, e3 + seventh, e3 + 2 * seventh)
  {
  }

  /** Two adjacent bounded ranges make one. */
  lemma WithinJoin(s: seq<Long>, lo: int, mid: int, hi: int, low: int, high: int)
    requires Within(s, lo, mid, low, high) && Within(s, mid, hi, low, high) && lo <= mid <= hi
    ensures Within(s, lo, hi, low, high)
  {
  }

  /** A bounded range outside the rearranged one stays bounded. */
  lemma WithinFrame(t: seq<Long>, s: seq<Long>, plo: int, phi: int, lo: int, hi: int, low: int, high: int)
    requires Frame(t, s, plo, phi) && Within(s, lo, hi, low, high) && (hi <= plo || phi <= lo)
    ensures Within(t, lo, hi, low, high)
  {
    forall i | lo <= i < hi
      ensures low <= t[i] as int <= high
    {
      FrameAt(t, s, plo, phi, i);
    }
  }

  /**
   * The state of the dual-pivot partitioning loop: a[left + 1..less) is below pivot1,
   * a[less..k) between the pivots, a[great + 1..right) above pivot2, and a[k..great] is still
   * to be looked at.
   */
  ghost predicate DualInv(s: seq<Long>, left: int, right: int, less: int, k: int, great: int, p1: int, p2: int) {
    0 <= left < less <= k <= great + 1 <= right < |s| &&
    Within(s, left + 1, less, MIN_LONG, p1 - 1) &&
    Within(s, less, k, p1, p2) &&
    Within(s, great + 1, right, p2 + 1, MAX_LONG)
  }

  /** Moving a[k] below pivot1 into the left part. */
  lemma DualLess(s: seq<Long>, t: seq<Long>, left: int, right: int, less: int, k: int, great: int, p1: int, p2: int)
    requires DualInv(s, left, right, less, k, great, p1, p2) && k <= great && (s[k] as int) < p1
    requires t == s[k := s[less]][less := s[k]]
    ensures DualInv(t, left, right, less + 1, k + 1, great, p1, p2) && Perm(t, s, left + 1, right)
  {
    SwapMultiset(s, k, less);
    assert t[..left + 1] == s[..left + 1];
    assert t[right..] == s[right..];
  }

  /** Rotating three elements keeps the multiset: a[i] goes to l, a[j] to i and a[l] to j. */
  lemma RotateMultiset(s: seq<Long>, i: int, j: int, l: int)
    requires 0 <= j <= i < l < |s|
    ensures multiset(s[i := s[j]][j := s[l]][l := s[i]]) == multiset(s)
  {
    var u := s[i := s[j]][j := s[i]];
    SwapMultiset(s, i, j);
    SwapMultiset(u, j, l);
    assert s[i := s[j]][j := s[l]][l := s[i]] == u[j := u[l]][l := u[j]];
  }

  /** Moving a[k] above pivot2 to great, and a[great], below pivot1, to the left part. */
  lemma DualRotate(s: seq<Long>, t: seq<Long>, left: int, right: int, less: int, k: int, g: int, x: Long,
                   p1: int, p2: int)
    requires DualInv(s, left, right, less, k, g, p1, p2) && k < g
    requires (s[k] as int) > p2 && x == s[g] && (x as int) < p1
    requires t == s[k := s[less]][less := x][g := s[k]]
    ensures DualInv(t, left, right, less + 1, k + 1, g - 1, p1, p2) && Perm(t, s, left + 1, right)
  {
    RotateMultiset(s, k, less, g);
    assert t[..left + 1] == s[..left + 1];
    assert t[right..] == s[right..];
  }

  /** Moving a[k] above pivot2 to great, and a[great], between the pivots, to k. */
  lemma DualMove(s: seq<Long>, t: seq<Long>, left: int, right: int, less: int, k: int, g: int, p1: int, p2: int)
    requires DualInv(s, left, right, less, k, g, p1, p2) && k < g
    requires (s[k] as int) > p2 && p1 <= s[g] as int <= p2
    requires t == s[k := s[g]][g := s[k]]
    ensures DualInv(t, left, right, less, k + 1, g - 1, p1, p2) && Perm(t, s, left + 1, right)
  {
    SwapMultiset(s, k, g);
    assert t[..left + 1] == s[..left + 1];
    assert t[right..] == s[right..];
  }

  /**
   * Moves great down over the elements above pivot2, but not below k: brk tells that all of
   * a[k..great] are above pivot2.
   */
  method ScanGreater(a: array<Long>, k: int, great: int, p2: Long) returns (g: int, brk: bool)
    requires 0 <= k <= great < a.Length
    ensures brk ==> g == k - 1 && Within(a[..], k, great + 1, p2 as int + 1, MAX_LONG)
    ensures !brk ==> k <= g <= great && a[g] <= p2 && Within(a[..], g + 1, great + 1, p2 as int + 1, MAX_LONG)
  {
    g := great;
    while a[g] > p2
      invariant k <= g <= great && Within(a[..], g + 1, great + 1, p2 as int + 1, MAX_LONG)
      decreases g
    {
      if g == k {
        return k - 1, true;
      }
      g := g - 1;
    }
    brk := false;
  }

  /**
   * a[k] is above pivot2 and a[g], the new great, is not: a[k] goes to g, and a[g] goes either
   * to the left part (below pivot1, through less) or to k (between the pivots).
   */
  method ExchangeGreater(a: array<Long>, left: int, right: int, less: int, k: int, g: int, p1: Long, p2: Long)
    returns (less': int)
    requires DualInv(a[..], left, right, less, k, g, p1 as int, p2 as int) && k < g
    requires a[k] > p2 && a[g] <= p2
    modifies a
    ensures less <= less' <= less + 1
    ensures DualInv(a[..], left, right, less', k + 1, g - 1, p1 as int, p2 as int)
    ensures Perm(a[..], old(a[..]), left + 1, right)
  {
    ghost var s := a[..];
    var ak := a[k];
    less' := less;
    if a[g] < p1 {
      a[k] := a[less];
      a[less] := a[g];
      less' := less + 1;
      a[g] := ak;
      DualRotate(s, a[..], left, right, less, k, g, s[g], p1 as int, p2 as int);
    } else {
      a[k] := a[g];
      a[g] := ak;
      DualMove(s, a[..], left, right, less, k, g, p1 as int, p2 as int);
    }
  }

  /** The step on a[k] above pivot2: great moves down to an element not above pivot2, or past k. */
  method StepGreater(a: array<Long>, left: int, right: int, less: int, k: int, great: int, p1: Long, p2: Long)
    returns (less': int, great': int, stop: bool)
    requires 0 <= left < less <= k <= great < right < a.Length && a[k] > p2
    requires DualInv(a[..], left, right, less, k, great, p1 as int, p2 as int)
    modifies a
    ensures less <= less' <= k + 1 && great' <= great
    ensures stop ==> great' == k - 1 && DualInv(a[..], left, right, less', k, great', p1 as int, p2 as int)
    ensures !stop ==> k <= great' + 1 && DualInv(a[..], left, right, less', k + 1, great', p1 as int, p2 as int)
    ensures Perm(a[..], old(a[..]), left + 1, right)
  {
    var g, brk := ScanGreater(a, k, great, p2);
    if brk {
      WithinJoin(a[..], k, great + 1, right, p2 as int + 1, MAX_LONG);
      PermRefl(a[..], left + 1, right);
      return less, g, true;
    }
    WithinJoin(a[..], g + 1, great + 1, right, p2 as int + 1, MAX_LONG);
    less' := ExchangeGreater(a, left, right, less, k, g, p1, p2);
    great', stop := g - 1, false;
  }

  /**
   * One step of the dual-pivot partitioning loop, on a[k]: below pivot1 it joins the left part,
   * between the pivots it stays, above pivot2 it goes to great after great has been moved down
   * over the elements above pivot2. stop tells that great passed k, which ends the partitioning.
   */
  method DualStep(a: array<Long>, left: int, right: int, less: int, k: int, great: int, p1: Long, p2: Long)
    returns (less': int, great': int, stop: bool)
    requires 0 <= left < less <= k <= great < right < a.Length && p1 <= p2
    requires DualInv(a[..], left, right, less, k, great, p1 as int, p2 as int)
    modifies a
    ensures less <= less' <= k + 1 && great' <= great
    ensures stop ==> great' == k - 1 && DualInv(a[..], left, right, less', k, great', p1 as int, p2 as int)
    ensures !stop ==> k <= great' + 1 && DualInv(a[..], left, right, less', k + 1, great', p1 as int, p2 as int)
    ensures Perm(a[..], old(a[..]), left + 1, right)
  {
    less', great', stop := less, great, false;
    var ak := a[k];
    if ak < p1 {
      ghost var s := a[..];
      a[k] := a[less];
      a[less] := ak;
      DualLess(s, a[..], left, right, less, k, great, p1 as int, p2 as int);
      less' := less + 1;
    } else if ak > p2 {
      less', great', stop := StepGreater(a, left, right, less, k, great, p1, p2);
    } else {
      WithinJoin(a[..], less, k, k + 1, p1 as int, p2 as int);
      PermRefl(a[..], left + 1, right);
    }
  }

  /** The dual-pivot partitioning loop: it ends when k has passed great. */
  method DualLoop(a: array<Long>, left: int, right: int, less0: int, great0: int, p1: Long, p2: Long)
    returns (less: int, great: int)
    requires DualInv(a[..], left, right, less0, less0, great0, p1 as int, p2 as int) && p1 <= p2
    modifies a
    ensures less0 <= less && great <= great0
    ensures DualInv(a[..], left, right, less, great + 1, great, p1 as int, p2 as int)
    ensures Perm(a[..], old(a[..]), left + 1, right)
  {
    less, great := less0, great0;
    var k := less0;
    PermRefl(a[..], left + 1, right);
    while k <= great
      invariant less0 <= less && great <= great0
      invariant DualInv(a[..], left, right, less, k, great, p1 as int, p2 as int)
      invariant Perm(a[..], old(a[..]), left + 1, right)
      decreases great - k + 1
    {
      ghost var s := a[..];
      var stop;
      less, great, stop := DualStep(a, left, right, less, k, great, p1, p2);
      PermTrans(a[..], s, old(a[..]), left + 1, right);
      if stop {
        break;
      }
      k := k + 1;
    }
  }

  /** Moves less up from left + 1 over the elements below pivot1; a[e3] stops it. */
  method SkipLess(a: array<Long>, left: int, e3: int, p1: Long) returns (less: int)
    requires 0 <= left < e3 < a.Length && p1 <= a[e3]
    ensures left < less <= e3 && p1 <= a[less]
    ensures Within(a[..], left + 1, less, MIN_LONG, p1 as int - 1)
  {
    less := left + 1;
    while a[less] < p1
      invariant left < less <= e3 && Within(a[..], left + 1, less, MIN_LONG, p1 as int - 1)
      decreases e3 - less
    {
      less := less + 1;
    }
  }

  /** Moves great down from right - 1 over the elements above pivot2; a[e3] stops it. */
  method SkipGreater(a: array<Long>, e3: int, right: int, p2: Long) returns (great: int)
    requires 0 <= e3 < right < a.Length && a[e3] <= p2
    ensures e3 <= great < right && a[great] <= p2
    ensures Within(a[..], great + 1, right, p2 as int + 1, MAX_LONG)
  {
    great := right - 1;
    while a[great] > p2
      invariant e3 <= great < right && Within(a[..], great + 1, right, p2 as int + 1, MAX_LONG)
      decreases great - e3
    {
      great := great - 1;
    }
  }

  /**
   * After dual-pivot partitioning of a[left..right]: a[left..less - 2] below pivot1, pivot1 at
   * less - 1, a[less..great] between the pivots, pivot2 at great + 1, a[great + 2..right] above pivot2.
   */
  ghost predicate DualParts(s: seq<Long>, left: int, right: int, less: int, great: int, p1: Long, p2: Long) {
    0 <= left < less <= great + 1 <= right < |s| &&
    Within(s, left, less - 1, MIN_LONG, p1 as int - 1) && s[less - 1] == p1 &&
    Within(s, less, great + 1, p1 as int, p2 as int) && s[great + 1] == p2 &&
    Within(s, great + 2, right + 1, p2 as int + 1, MAX_LONG)
  }

  /** Writing the same value at the same place into two sequences with equal multisets. */
  lemma UpdateSameMultiset(u: seq<Long>, u0: seq<Long>, i: int, x: Long)
    requires multiset(u) == multiset(u0) && 0 <= i < |u| == |u0| && u[i] == u0[i]
    ensures multiset(u[i := x]) == multiset(u0[i := x])
  {
  }

  /** Taking the pivots out (e2, e4 get a[left], a[right]) and putting them at left and right swaps twice. */
  lemma PivotsOutMultiset(s0: seq<Long>, left: int, right: int, e2: int, e4: int)
    requires 0 <= left < e2 < e4 < right < |s0|
    ensures multiset(s0[e2 := s0[left]][e4 := s0[right]][left := s0[e2]][right := s0[e4]]) == multiset(s0)
  {
    var w := s0[e2 := s0[left]][left := s0[e2]];
    SwapMultiset(s0, e2, left);
    SwapMultiset(w, e4, right);
    assert s0[e2 := s0[left]][e4 := s0[right]][left := s0[e2]][right := s0[e4]] == w[e4 := w[right]][right := w[e4]];
  }

  /** Moving u[j] to i and then writing x at j is swapping i and j after writing x at i. */
  lemma MoveOverSwap(u: seq<Long>, i: int, j: int, x: Long)
    requires 0 <= i < |u| && 0 <= j < |u| && i != j
    ensures u[i := u[j]][j := x] == u[i := x][i := u[i := x][j]][j := u[i := x][i]]
  {
  }

  /** Moving u[j] to i and then writing x at j has the multiset of writing x at i. */
  lemma MoveOverMultiset(u: seq<Long>, i: int, j: int, y: Long, x: Long)
    requires 0 <= i < |u| && 0 <= j < |u| && y == u[j]
    ensures multiset(u[i := y][j := x]) == multiset(u[i := x])
  {
    if i != j {
      MoveOverSwap(u, i, j, x);
      SwapMultiset(u[i := x], i, j);
    }
  }

  /** Moving pivot1 from left to less - 1 and pivot2 from right to great + 1. */
  lemma PivotsBackMultiset(u: seq<Long>, g: seq<Long>, v: seq<Long>, left: int, right: int, less: int, great: int,
                           p1: Long, p2: Long)
    requires 0 <= left < less <= great + 1 <= right < |u|
    requires g == u[left := u[less - 1]][less - 1 := p1] && v == g[right := u[great + 1]][great + 1 := p2]
    ensures multiset(v) == multiset(u[left := p1][right := p2])
  {
    MoveOverMultiset(u, left, less - 1, u[less - 1], p1);
    assert g[great + 1] == u[great + 1] && g[right] == u[left := p1][right];
    MoveOverMultiset(g, right, great + 1, u[great + 1], p2);
    UpdateSameMultiset(g, u[left := p1], right, p2);
  }

  /** Taking the pivots out, partitioning, and putting the pivots back keeps the multiset. */
  lemma DualFinishMultiset(s0: seq<Long>, u0: seq<Long>, u: seq<Long>, v: seq<Long>, left: int, right: int,
                           e2: int, e4: int, less: int, great: int)
    requires 0 <= left < e2 < e4 < right < |s0| && left < less <= great + 1 <= right
    requires u0 == s0[e2 := s0[left]][e4 := s0[right]]
    requires multiset(u) == multiset(u0) && |u| == |u0| && u[left] == u0[left] && u[right] == u0[right]
    requires v == u[left := u[less - 1]][less - 1 := s0[e2]][right := u[great + 1]][great + 1 := s0[e4]]
    ensures multiset(v) == multiset(s0)
  {
    UpdateSameMultiset(u, u0, left, s0[e2]);
    UpdateSameMultiset(u[left := s0[e2]], u0[left := s0[e2]], right, s0[e4]);
    PivotsOutMultiset(s0, left, right, e2, e4);
    PivotsBackMultiset(u, u[left := u[less - 1]][less - 1 := s0[e2]], v, left, right, less, great, s0[e2], s0[e4]);
  }

  /** Putting the pivots back in their places rearranges only [left, right]. */
  lemma DualFinishPerm(s0: seq<Long>, u: seq<Long>, v: seq<Long>, left: int, right: int, e2: int, e4: int,
                       less: int, great: int)
    requires 0 <= left < e2 < e4 < right < |s0| && left < less <= great + 1 <= right
    requires Perm(u, s0[e2 := s0[left]][e4 := s0[right]], left + 1, right)
    requires v == u[left := u[less - 1]][less - 1 := s0[e2]][right := u[great + 1]][great + 1 := s0[e4]]
    ensures Perm(v, s0, left, right + 1)
  {
    var u0 := s0[e2 := s0[left]][e4 := s0[right]];
    FrameAt(u, u0, left + 1, right, left);
    FrameAt(u, u0, left + 1, right, right);
    DualFinishMultiset(s0, u0, u, v, left, right, e2, e4, less, great);
    assert v[..left] == u[..left + 1][..left];
    assert v[right + 1..] == u[right..][1..];
  }

  /** Putting the pivots back in their places leaves the five parts of DualParts. */
  lemma DualFinishParts(u: seq<Long>, v: seq<Long>, left: int, right: int, less: int, great: int, p1: Long, p2: Long)
    requires DualInv(u, left, right, less, great + 1, great, p1 as int, p2 as int)
    requires v == u[left := u[less - 1]][less - 1 := p1][right := u[great + 1]][great + 1 := p2]
    ensures DualParts(v, left, right, less, great, p1, p2)
  {
  }

  /**
   * Dual-pivot partitioning of a[left..right] around the second and fourth samples, which are
   * taken out of the range first and put back between the parts at the end.
   */
  method DualPartition(a: array<Long>, left: int, right: int, e2: int, e3: int, e4: int)
    returns (less: int, great: int, p1: Long, p2: Long)
    requires 0 <= left < e2 < e3 < e4 < right < a.Length && a[e2] < a[e3] < a[e4]
    modifies a
    ensures p1 == old(a[e2]) && p2 == old(a[e4])
    ensures DualParts(a[..], left, right, less, great, p1, p2)
    ensures Perm(a[..], old(a[..]), left, right + 1)
  {
    p1, p2 := a[e2], a[e4];
    a[e2] := a[left];
    a[e4] := a[right];
    less := SkipLess(a, left, e3, p1);
    great := SkipGreater(a, e3, right, p2);
    less, great := DualLoop(a, left, right, less, great, p1, p2);
    ghost var u := a[..];
    a[left] := a[less - 1];
    a[less - 1] := p1;
    a[right] := a[great + 1];
    a[great + 1] := p2;
    DualFinishPerm(old(a[..]), u, a[..], left, right, e2, e4, less, great);
    DualFinishParts(u, a[..], left, right, less, great, p1, p2);
  }

  /*
   * Center partitioning: when the center part a[lo..hi) is large, the elements equal to pivot1
   * are gathered at its start and those equal to pivot2 at its end. All of a[lo..hi) lie between
   * the pivots, so "equal to pivot1" is "below pivot1 + 1" and "equal to pivot2" is "above
   * pivot2 - 1": the state is DualInv with the pivots p1 + 1 and p2 - 1.
   */

  /** Moves great down over the elements equal to pivot2, but not below k. */
  method ScanEqual(a: array<Long>, k: int, great: int, p2: Long) returns (g: int, brk: bool)
    requires 0 <= k <= great < a.Length
    ensures brk ==> g == k - 1 && Within(a[..], k, great + 1, p2 as int, MAX_LONG)
    ensures !brk ==> k <= g <= great && a[g] != p2 && Within(a[..], g + 1, great + 1, p2 as int, MAX_LONG)
  {
    g := great;
    while a[g] == p2
      invariant k <= g <= great && Within(a[..], g + 1, great + 1, p2 as int, MAX_LONG)
      decreases g
    {
      if g == k {
        return k - 1, true;
      }
      g := g - 1;
    }
    brk := false;
  }

  /** a[k] equals pivot2 and a[g] does not: a[k] goes to g, a[g] to the start (if it is pivot1) or to k. */
  method CenterExchange(a: array<Long>, lo: int, hi: int, less: int, k: int, g: int, p1: Long, p2: Long)
    returns (less': int)
    requires DualInv(a[..], lo - 1, hi, less, k, g, p1 as int + 1, p2 as int - 1) && k < g
    requires a[k] == p2 && p1 <= a[g] < p2
    modifies a
    ensures less <= less' <= less + 1
    ensures DualInv(a[..], lo - 1, hi, less', k + 1, g - 1, p1 as int + 1, p2 as int - 1)
    ensures Perm(a[..], old(a[..]), lo, hi)
  {
    ghost var s := a[..];
    var ak := a[k];
    less' := less;
    if a[g] == p1 {
      a[k] := a[less];
      a[less] := p1;
      less' := less + 1;
      a[g] := ak;
      DualRotate(s, a[..], lo - 1, hi, less, k, g, p1, p1 as int + 1, p2 as int - 1);
    } else {
      a[k] := a[g];
      a[g] := ak;
      DualMove(s, a[..], lo - 1, hi, less, k, g, p1 as int + 1, p2 as int - 1);
    }
  }

  /** The step on a[k] equal to pivot2. */
  method CenterGreater(a: array<Long>, lo: int, hi: int, less: int, k: int, great: int, p1: Long, p2: Long)
    returns (less': int, great': int, stop: bool)
    requires DualInv(a[..], lo - 1, hi, less, k, great, p1 as int + 1, p2 as int - 1) && k <= great
    requires Within(a[..], lo, hi, p1 as int, p2 as int) && a[k] == p2
    modifies a
    ensures less <= less' <= k + 1 && great' <= great
    ensures stop ==> great' == k - 1 && DualInv(a[..], lo - 1, hi, less', k, great', p1 as int + 1, p2 as int - 1)
    ensures !stop ==> k <= great' + 1 && DualInv(a[..], lo - 1, hi, less', k + 1, great', p1 as int + 1, p2 as int - 1)
    ensures Perm(a[..], old(a[..]), lo, hi)
  {
    var g, brk := ScanEqual(a, k, great, p2);
    if brk {
      WithinJoin(a[..], k, great + 1, hi, p2 as int, MAX_LONG);
      PermRefl(a[..], lo, hi);
      return less, g, true;
    }
    WithinJoin(a[..], g + 1, great + 1, hi, p2 as int, MAX_LONG);
    less' := CenterExchange(a, lo, hi, less, k, g, p1, p2);
    great', stop := g - 1, false;
  }

  /** One step of the center partitioning loop, on a[k]. */
  method CenterStep(a: array<Long>, lo: int, hi: int, less: int, k: int, great: int, p1: Long, p2: Long)
    returns (less': int, great': int, stop: bool)
    requires DualInv(a[..], lo - 1, hi, less, k, great, p1 as int + 1, p2 as int - 1) && k <= great
    requires Within(a[..], lo, hi, p1 as int, p2 as int)
    modifies a
    ensures less <= less' <= k + 1 && great' <= great
    ensures stop ==> great' == k - 1 && DualInv(a[..], lo - 1, hi, less', k, great', p1 as int + 1, p2 as int - 1)
    ensures !stop ==> k <= great' + 1 && DualInv(a[..], lo - 1, hi, less', k + 1, great', p1 as int + 1, p2 as int - 1)
    ensures Perm(a[..], old(a[..]), lo, hi)
  {
    less', great', stop := less, great, false;
    var ak := a[k];
    if ak == p1 {
      ghost var s := a[..];
      a[k] := a[less];
      a[less] := ak;
      DualLess(s, a[..], lo - 1, hi, less, k, great, p1 as int + 1, p2 as int - 1);
      less' := less + 1;
    } else if ak == p2 {
      less', great', stop := CenterGreater(a, lo, hi, less, k, great, p1, p2);
    } else {
      WithinJoin(a[..], less, k, k + 1, p1 as int + 1, p2 as int - 1);
      PermRefl(a[..], lo, hi);
    }
  }

  /** The center partitioning loop. */
  method CenterLoop(a: array<Long>, lo: int, hi: int, less0: int, great0: int, p1: Long, p2: Long)
    returns (less: int, great: int)
    requires DualInv(a[..], lo - 1, hi, less0, less0, great0, p1 as int + 1, p2 as int - 1)
    requires Within(a[..], lo, hi, p1 as int, p2 as int)
    modifies a
    ensures DualInv(a[..], lo - 1, hi, less, great + 1, great, p1 as int + 1, p2 as int - 1)
    ensures Within(a[..], lo, hi, p1 as int, p2 as int)
    ensures Perm(a[..], old(a[..]), lo, hi)
  {
    less, great := less0, great0;
    var k := less0;
    PermRefl(a[..], lo, hi);
    while k <= great
      invariant DualInv(a[..], lo - 1, hi, less, k, great, p1 as int + 1, p2 as int - 1)
      invariant Within(a[..], lo, hi, p1 as int, p2 as int)
      invariant Perm(a[..], old(a[..]), lo, hi)
      decreases great - k + 1
    {
      ghost var s := a[..];
      var stop;
      less, great, stop := CenterStep(a, lo, hi, less, k, great, p1, p2);
      PermWithin(a[..], s, lo, hi, lo, hi, p1 as int, p2 as int);
      PermTrans(a[..], s, old(a[..]), lo, hi);
      if stop {
        break;
      }
      k := k + 1;
    }
  }

  /** Moves less up from lo over the elements equal to pivot1; the pivot2 at hi stops it. */
  method SkipPivot1(a: array<Long>, lo: int, hi: int, p1: Long, p2: Long) returns (less: int)
    requires 0 <= lo <= hi < a.Length && a[hi] == p2 && p1 < p2
    ensures lo <= less <= hi && a[less] != p1 && Within(a[..], lo, less, MIN_LONG, p1 as int)
  {
    less := lo;
    while a[less] == p1
      invariant lo <= less <= hi && Within(a[..], lo, less, MIN_LONG, p1 as int)
      decreases hi - less
    {
      less := less + 1;
    }
  }

  /** Moves great down from hi - 1 over the elements equal to pivot2; the pivot1 at less - 1 stops it. */
  method SkipPivot2(a: array<Long>, less: int, hi: int, p1: Long, p2: Long) returns (great: int)
    requires 0 < less <= hi < a.Length && a[less - 1] == p1 && p1 < p2
    ensures less - 1 <= great < hi && Within(a[..], great + 1, hi, p2 as int, MAX_LONG)
  {
    great := hi - 1;
    while a[great] == p2
      invariant less - 1 <= great < hi && Within(a[..], great + 1, hi, p2 as int, MAX_LONG)
      decreases great
    {
      great := great - 1;
    }
  }

  /**
   * Center partitioning of a[lo..hi), all between the pivots, with pivot1 at lo - 1 and pivot2
   * at hi: the result is a[lo..less) equal to pivot1, a[less..great] strictly between the
   * pivots and a[great + 1..hi) equal to pivot2.
   */
  method CenterPartition(a: array<Long>, lo: int, hi: int, p1: Long, p2: Long) returns (less: int, great: int)
    requires 0 < lo <= hi < a.Length && a[lo - 1] == p1 && a[hi] == p2 && p1 < p2
    requires Within(a[..], lo, hi, p1 as int, p2 as int)
    modifies a
    ensures lo <= less <= great + 1 <= hi
    ensures Within(a[..], lo, less, p1 as int, p1 as int)
    ensures Within(a[..], less, great + 1, p1 as int + 1, p2 as int - 1)
    ensures Within(a[..], great + 1, hi, p2 as int, p2 as int)
    ensures Perm(a[..], old(a[..]), lo, hi)
  {
    less := SkipPivot1(a, lo, hi, p1, p2);
    great := SkipPivot2(a, less, hi, p1, p2);
    less, great := CenterLoop(a, lo, hi, less, great, p1, p2);
  }

  /*
   * Single-pivot (three-way) partitioning of a[left..right]: a[left..less) below the pivot,
   * a[less..k) equal to it, a[great + 1..right] above it. The scan of great has no bound of its
   * own; what stops it is an element equal to the pivot at pi in [less, great] and, to keep great
   * from falling below left, a second element not above the pivot at w.
   */
  ghost predicate SingleInv(s: seq<Long>, left: int, right: int, less: int, k: int, great: int, pivot: Long,
                            pi: int, w: int) {
    0 <= left <= less <= k <= great + 1 <= right + 1 <= |s| &&
    Within(s, left, less, MIN_LONG, pivot as int - 1) &&
    Within(s, less, k, pivot as int, pivot as int) &&
    Within(s, great + 1, right + 1, pivot as int + 1, MAX_LONG) &&
    less <= pi <= great && s[pi] == pivot && left <= w <= great && w != pi && s[w] <= pivot
  }

  /** The result of single-pivot partitioning; both outer parts are shorter than the range. */
  ghost predicate SingleParts(s: seq<Long>, left: int, right: int, less: int, great: int, pivot: Long) {
    0 <= left <= less <= right && left <= great <= right < |s| && less <= great + 1 &&
    Within(s, left, less, MIN_LONG, pivot as int - 1) &&
    Within(s, less, great + 1, pivot as int, pivot as int) &&
    Within(s, great + 1, right + 1, pivot as int, MAX_LONG)
  }

  /** Moving a[k] below the pivot into the left part. */
  lemma SingleLess(s: seq<Long>, t: seq<Long>, left: int, right: int, less: int, k: int, great: int, pivot: Long,
                   pi: int, w: int, pi': int, w': int)
    requires SingleInv(s, left, right, less, k, great, pivot, pi, w) && k <= great && s[k] < pivot
    requires t == s[k := s[less]][less := s[k]]
    requires pi' == (if pi == less then k else pi) && w' == (if w == less then k else if w == k then less else w)
    ensures SingleInv(t, left, right, less + 1, k + 1, great, pivot, pi', w') && Perm(t, s, left, right + 1)
  {
    SwapMultiset(s, k, less);
    assert t[..left] == s[..left];
    assert t[right + 1..] == s[right + 1..];
  }

  /** Moving a[k] above the pivot to g, and a[g], below it, to the left part. */
  lemma SingleRotate(s: seq<Long>, t: seq<Long>, left: int, right: int, less: int, k: int, great: int, g: int,
                     pivot: Long, pi: int, w: int, pi': int, w': int)
    requires SingleInv(s, left, right, less, k, great, pivot, pi, w) && k < g <= great
    requires Within(s, g + 1, great + 1, pivot as int + 1, MAX_LONG) && s[k] > pivot && s[g] < pivot
    requires t == s[k := s[less]][less := s[g]][g := s[k]]
    requires pi' == (if pi == less then k else pi) && w' == (if w == g then less else if w == less then k else w)
    ensures SingleInv(t, left, right, less + 1, k + 1, g - 1, pivot, pi', w') && Perm(t, s, left, right + 1)
  {
    RotateMultiset(s, k, less, g);
    assert t[..left] == s[..left];
    assert t[right + 1..] == s[right + 1..];
  }

  /** Moving a[k] above the pivot to g, and the pivot value found at g to k. */
  lemma SingleMove(s: seq<Long>, t: seq<Long>, left: int, right: int, less: int, k: int, great: int, g: int,
                   pivot: Long, pi: int, w: int, pi': int, w': int)
    requires SingleInv(s, left, right, less, k, great, pivot, pi, w) && k < g <= great
    requires Within(s, g + 1, great + 1, pivot as int + 1, MAX_LONG) && s[k] > pivot && s[g] == pivot
    requires t == s[k := pivot][g := s[k]]
    requires pi' == (if pi == g then k else pi) && w' == (if w == g then k else w)
    ensures SingleInv(t, left, right, less, k + 1, g - 1, pivot, pi', w') && Perm(t, s, left, right + 1)
  {
    SwapMultiset(s, k, g);
    assert t == s[k := s[g]][g := s[k]];
    assert t[..left] == s[..left];
    assert t[right + 1..] == s[right + 1..];
  }

  /**
   * great has run down to k - 1, onto the last element equal to the pivot: the exchange with
   * a[k] ends the partitioning, and the pivot value at k joins the right part.
   */
  lemma SingleLast(s: seq<Long>, t: seq<Long>, left: int, right: int, less: int, k: int, great: int,
                   pivot: Long, pi: int, w: int)
    requires SingleInv(s, left, right, less, k, great, pivot, pi, w) && k <= great
    requires Within(s, k, great + 1, pivot as int + 1, MAX_LONG) && s[k - 1] == pivot
    requires t == s[k := pivot][k - 1 := s[k]]
    ensures SingleParts(t, left, right, less, k - 2, pivot) && Perm(t, s, left, right + 1)
  {
    SwapMultiset(s, k, k - 1);
    assert t == s[k := s[k - 1]][k - 1 := s[k]];
    assert t[..left] == s[..left];
    assert t[right + 1..] == s[right + 1..];
  }

  /** Moves great down over the elements above the pivot; the element at stopper stops it. */
  method ScanDown(a: array<Long>, great: int, pivot: Long, ghost stopper: int) returns (g: int)
    requires 0 <= stopper <= great < a.Length && a[stopper] <= pivot
    ensures stopper <= g <= great && a[g] <= pivot
    ensures Within(a[..], g + 1, great + 1, pivot as int + 1, MAX_LONG)
  {
    g := great;
    while a[g] > pivot
      invariant stopper <= g <= great && Within(a[..], g + 1, great + 1, pivot as int + 1, MAX_LONG)
      decreases g
    {
      g := g - 1;
    }
  }

  /** Where the scan of great can stop: past k, or on the last element equal to the pivot. */
  lemma SingleScanned(s: seq<Long>, left: int, right: int, less: int, k: int, great: int, g: int, pivot: Long,
                      pi: int, w: int)
    requires SingleInv(s, left, right, less, k, great, pivot, pi, w) && k <= great && s[k] > pivot
    requires pi <= g <= great && s[g] <= pivot && Within(s, g + 1, great + 1, pivot as int + 1, MAX_LONG)
    ensures k < g || (g == k - 1 && s[g] == pivot)
  {
    if g < k {
      assert less <= k - 1 <= great;
      assert s[k - 1] == pivot;
    }
  }

  /** a[k] is above the pivot and a[g], g > k, is not: a[k] goes to g, a[g] to the left part or to k. */
  method SingleExchange(a: array<Long>, left: int, right: int, less: int, k: int, great: int, g: int, pivot: Long,
                        ghost pi: int, ghost w: int)
    returns (less': int, ghost pi': int, ghost w': int)
    requires SingleInv(a[..], left, right, less, k, great, pivot, pi, w) && k < g <= great
    requires Within(a[..], g + 1, great + 1, pivot as int + 1, MAX_LONG) && a[k] > pivot && a[g] <= pivot
    modifies a
    ensures SingleInv(a[..], left, right, less', k + 1, g - 1, pivot, pi', w')
    ensures Perm(a[..], old(a[..]), left, right + 1)
  {
    var ak := a[k];
    ghost var s := a[..];
    if a[g] < pivot {
      a[k] := a[less];
      a[less] := a[g];
      less' := less + 1;
      a[g] := ak;
      pi' := if pi == less then k else pi;
      w' := if w == g then less else if w == less then k else w;
      SingleRotate(s, a[..], left, right, less, k, great, g, pivot, pi, w, pi', w');
    } else {
      a[k] := pivot;
      less' := less;
      a[g] := ak;
      pi' := if pi == g then k else pi;
      w' := if w == g then k else w;
      SingleMove(s, a[..], left, right, less, k, great, g, pivot, pi, w, pi', w');
    }
  }

  /** The step on a[k] above the pivot; stop tells that great ran down to k - 1. */
  method SingleGreater(a: array<Long>, left: int, right: int, less: int, k: int, great: int, pivot: Long,
                       ghost pi: int, ghost w: int)
    returns (less': int, great': int, stop: bool, ghost pi': int, ghost w': int)
    requires SingleInv(a[..], left, right, less, k, great, pivot, pi, w) && k <= great && a[k] > pivot
    modifies a
    ensures stop ==> SingleParts(a[..], left, right, less', great', pivot)
    ensures !stop ==> great' <= great && SingleInv(a[..], left, right, less', k + 1, great', pivot, pi', w')
    ensures Perm(a[..], old(a[..]), left, right + 1)
  {
    var g := ScanDown(a, great, pivot, pi);
    SingleScanned(a[..], left, right, less, k, great, g, pivot, pi, w);
    if g < k {
      ghost var s := a[..];
      var ak := a[k];
      a[k] := pivot;
      a[g] := ak;
      SingleLast(s, a[..], left, right, less, k, great, pivot, pi, w);
      return less, g - 1, true, pi, w;
    }
    less', pi', w' := SingleExchange(a, left, right, less, k, great, g, pivot, pi, w);
    great', stop := g - 1, false;
  }

  /** The step on a[k] below the pivot: it is exchanged with a[less], the first element equal to the pivot. */
  method SingleSwapLess(a: array<Long>, left: int, right: int, less: int, k: int, great: int, pivot: Long,
                        ghost pi: int, ghost w: int)
    returns (ghost pi': int, ghost w': int)
    requires SingleInv(a[..], left, right, less, k, great, pivot, pi, w) && k <= great && a[k] < pivot
    modifies a
    ensures SingleInv(a[..], left, right, less + 1, k + 1, great, pivot, pi', w')
    ensures Perm(a[..], old(a[..]), left, right + 1)
  {
    ghost var s := a[..];
    var ak := a[k];
    a[k] := a[less];
    a[less] := ak;
    pi' := if pi == less then k else pi;
    w' := if w == less then k else if w == k then less else w;
    SingleLess(s, a[..], left, right, less, k, great, pivot, pi, w, pi', w');
  }

  /** One step of the single-pivot partitioning loop, on a[k]. */
  method SingleStep(a: array<Long>, left: int, right: int, less: int, k: int, great: int, pivot: Long,
                    ghost pi: int, ghost w: int)
    returns (less': int, great': int, stop: bool, ghost pi': int, ghost w': int)
    requires SingleInv(a[..], left, right, less, k, great, pivot, pi, w) && k <= great
    modifies a
    ensures stop ==> SingleParts(a[..], left, right, less', great', pivot)
    ensures !stop ==> great' <= great && SingleInv(a[..], left, right, less', k + 1, great', pivot, pi', w')
    ensures Perm(a[..], old(a[..]), left, right + 1)
  {
    less', great', stop, pi', w' := less, great, false, pi, w;
    if a[k] == pivot {
      WithinJoin(a[..], less, k, k + 1, pivot as int, pivot as int);
      PermRefl(a[..], left, right + 1);
      return;
    }
    if a[k] < pivot {
      pi', w' := SingleSwapLess(a, left, right, less, k, great, pivot, pi, w);
      less' := less + 1;
    } else {
      less', great', stop, pi', w' := SingleGreater(a, left, right, less, k, great, pivot, pi, w);
    }
  }

  /** The single-pivot partitioning loop. */
  method SingleLoop(a: array<Long>, left: int, right: int, pivot: Long, ghost pi0: int, ghost w0: int)
    returns (less: int, great: int)
    requires SingleInv(a[..], left, right, left, left, right, pivot, pi0, w0)
    modifies a
    ensures SingleParts(a[..], left, right, less, great, pivot)
    ensures Perm(a[..], old(a[..]), left, right + 1)
  {
    less, great := left, right;
    ghost var pi, w := pi0, w0;
    var k := less;
    PermRefl(a[..], left, right + 1);
    while k <= great
      invariant SingleInv(a[..], left, right, less, k, great, pivot, pi, w)
      invariant Perm(a[..], old(a[..]), left, right + 1)
      decreases great - k + 1
    {
      ghost var s := a[..];
      var stop;
      less, great, stop, pi, w := SingleStep(a, left, right, less, k, great, pivot, pi, w);
      PermTrans(a[..], s, old(a[..]), left, right + 1);
      if stop {
        return;
      }
      k := k + 1;
    }
  }

  /**
   * Single-pivot partitioning of a[left..right] around the third sample, with the second sample,
   * not above it, as the element that keeps great inside the range.
   */
  method SinglePartition(a: array<Long>, left: int, right: int, e2: int, e3: int)
    returns (less: int, great: int, pivot: Long)
    requires 0 <= left <= e2 < e3 <= right < a.Length && a[e2] <= a[e3]
    modifies a
    ensures pivot == old(a[e3])
    ensures SingleParts(a[..], left, right, less, great, pivot)
    ensures Perm(a[..], old(a[..]), left, right + 1)
  {
    pivot := a[e3];
    less, great := SingleLoop(a, left, right, pivot, e3, e2);
  }

  /*
   * The recursive sort. A range that is not leftmost has a sentinel at left - 1 that is not above
   * any of its elements; this is what lets the pair insertion sort go without a bound check.
   */

  /** Rearranging [lo, hi) inside [lo', hi') after a rearrangement of [lo', hi'). */
  lemma PermStep(t: seq<Long>, s: seq<Long>, s0: seq<Long>, lo: int, hi: int, lo': int, hi': int)
    requires Perm(t, s, lo, hi) && Perm(s, s0, lo', hi') && lo' <= lo && hi <= hi'
    ensures Perm(t, s0, lo', hi')
  {
    PermWiden(t, s, lo, hi, lo', hi');
  }

  /** A rearrangement of [lo, hi) keeps the sentinel at lo - 1. */
  lemma SentinelKept(t: seq<Long>, s: seq<Long>, lo: int, hi: int)
    requires Perm(t, s, lo, hi) && 0 < lo && Within(s, lo, hi, s[lo - 1] as int, MAX_LONG)
    ensures Within(t, lo, hi, t[lo - 1] as int, MAX_LONG)
  {
    FrameAt(t, s, lo, hi, lo - 1);
    PermWithin(t, s, lo, hi, lo, hi, s[lo - 1] as int, MAX_LONG);
  }

  /** A sorted range outside the rearranged one stays sorted. */
  lemma SortedFrame(t: seq<Long>, s: seq<Long>, plo: int, phi: int, lo: int, hi: int)
    requires Frame(t, s, plo, phi) && Sorted(s, lo, hi) && (hi <= plo || phi <= lo)
    ensures Sorted(t, lo, hi)
  {
    forall i | lo <= i < hi
      ensures t[i] == s[i]
    {
      FrameAt(t, s, plo, phi, i);
    }
  }

  /** Two adjacent sorted ranges make one when the last of the first is not above the first of the second. */
  lemma SortedConcat(s: seq<Long>, lo: int, mid: int, hi: int)
    requires Sorted(s, lo, mid) && Sorted(s, mid, hi) && lo <= mid <= hi
    requires lo < mid < hi ==> s[mid - 1] <= s[mid]
    ensures Sorted(s, lo, hi)
  {
    forall i, j | lo <= i < j < hi
      ensures s[i] <= s[j]
    {
      if i < mid <= j {
        assert s[i] <= s[mid - 1] && s[mid] <= s[j];
      }
    }
  }

  /** A range of equal elements is sorted. */
  lemma SortedConstant(s: seq<Long>, lo: int, hi: int, x: int)
    requires Within(s, lo, hi, x, x)
    ensures Sorted(s, lo, hi)
  {
  }

  /** Sorting one of the three parts keeps the shape left by dual-pivot partitioning. */
  lemma DualPartsKept(t: seq<Long>, s: seq<Long>, lo: int, hi: int, left: int, right: int, less: int, great: int,
                      p1: Long, p2: Long)
    requires DualParts(s, left, right, less, great, p1, p2) && Perm(t, s, lo, hi)
    requires (lo == left && hi == less - 1) || (lo == less && hi == great + 1) || (lo == great + 2 && hi == right + 1)
    ensures DualParts(t, left, right, less, great, p1, p2)
  {
    FrameAt(t, s, lo, hi, less - 1);
    FrameAt(t, s, lo, hi, great + 1);
    if lo == left {
      PermWithin(t, s, lo, hi, lo, hi, MIN_LONG, p1 as int - 1);
      WithinFrame(t, s, lo, hi, less, great + 1, p1 as int, p2 as int);
      WithinFrame(t, s, lo, hi, great + 2, right + 1, p2 as int + 1, MAX_LONG);
    } else if lo == less {
      WithinFrame(t, s, lo, hi, left, less - 1, MIN_LONG, p1 as int - 1);
      PermWithin(t, s, lo, hi, lo, hi, p1 as int, p2 as int);
      WithinFrame(t, s, lo, hi, great + 2, right + 1, p2 as int + 1, MAX_LONG);
    } else {
      WithinFrame(t, s, lo, hi, left, less - 1, MIN_LONG, p1 as int - 1);
      WithinFrame(t, s, lo, hi, less, great + 1, p1 as int, p2 as int);
      PermWithin(t, s, lo, hi, lo, hi, p2 as int + 1, MAX_LONG);
    }
  }

  /** The three sorted parts and the two pivots between them make a sorted range. */
  lemma DualSorted(s: seq<Long>, left: int, right: int, less: int, great: int, p1: Long, p2: Long)
    requires DualParts(s, left, right, less, great, p1, p2) && p1 < p2
    requires Sorted(s, left, less - 1) && Sorted(s, less, great + 1) && Sorted(s, great + 2, right + 1)
    ensures Sorted(s, left, right + 1)
  {
    PivotsSorted(s, less, great, p1, p2);
    SortedConcat(s, left, less - 1, great + 2);
    SortedConcat(s, left, great + 2, right + 1);
  }

  /** The sorted center between pivot1 and pivot2 is sorted with them. */
  lemma PivotsSorted(s: seq<Long>, less: int, great: int, p1: Long, p2: Long)
    requires 0 < less <= great + 1 < |s| && s[less - 1] == p1 && s[great + 1] == p2 && p1 < p2
    requires Sorted(s, less, great + 1) && Within(s, less, great + 1, p1 as int, p2 as int)
    ensures Sorted(s, less - 1, great + 2)
  {
    SortedConcat(s, less - 1, less, great + 1);
    SortedConcat(s, less - 1, great + 1, great + 2);
  }

  /** Pivot1 copies, the sorted inner part and pivot2 copies make a sorted center. */
  lemma CenterSorted(s: seq<Long>, lo: int, hi: int, less: int, great: int, p1: Long, p2: Long)
    requires lo <= less <= great + 1 <= hi && p1 < p2
    requires Within(s, lo, less, p1 as int, p1 as int) && Within(s, great + 1, hi, p2 as int, p2 as int)
    requires Within(s, less, great + 1, p1 as int + 1, p2 as int - 1) && Sorted(s, less, great + 1)
    ensures Sorted(s, lo, hi)
  {
    SortedConstant(s, lo, less, p1 as int);
    SortedConstant(s, great + 1, hi, p2 as int);
    SortedConcat(s, lo, less, great + 1);
    SortedConcat(s, lo, great + 1, hi);
  }

  /** The sorted outer parts around the pivot copies make a sorted range. */
  lemma SingleSorted(s: seq<Long>, left: int, right: int, less: int, great: int, pivot: Long)
    requires SingleParts(s, left, right, less, great, pivot)
    requires Sorted(s, left, less) && Sorted(s, great + 1, right + 1)
    ensures Sorted(s, left, right + 1)
  {
    SortedConstant(s, less, great + 1, pivot as int);
    SortedConcat(s, left, less, great + 1);
    SortedConcat(s, left, great + 1, right + 1);
  }

  /**
   * Sorts a[left..right]: insertion sort below INSERTION_SORT_THRESHOLD elements (pair insertion
   * sort when there is a sentinel), otherwise dual-pivot partitioning when the five samples are
   * all different and single-pivot partitioning when they are not.
   */
  method QuickSort(a: array<Long>, left: int, right: int, leftmost: bool)
    requires 0 <= left <= right + 1 <= a.Length
    requires !leftmost ==> 0 < left && Within(a[..], left, right + 1, a[left - 1] as int, MAX_LONG)
    modifies a
    ensures Perm(a[..], old(a[..]), left, right + 1) && Sorted(a[..], left, right + 1)
    decreases right - left + 1, 4
  {
    var length := right - left + 1;
    if length < INSERTION_SORT_THRESHOLD {
      if leftmost {
        InsertionSort(a, left, right);
      } else {
        PairInsertionSort(a, left, right);
      }
      return;
    }
    var seventh := length / 8 + length / 64 + 1;
    var e3 := (left + right) / 2;
    var e2 := e3 - seventh;
    var e1 := e2 - seventh;
    var e4 := e3 + seventh;
    var e5 := e4 + seventh;
    SampleSpacing(left, right);
    SortFive(a, left, right, e1, e2, e3, e4, e5);
    if !leftmost {
      SentinelKept(a[..], old(a[..]), left, right + 1);
    }
    ghost var s := a[..];
    if a[e1] != a[e2] && a[e2] != a[e3] && a[e3] != a[e4] && a[e4] != a[e5] {
      DualPivotSort(a, left, right, leftmost, e1, e2, e3, e4, e5);
    } else {
      SinglePivotSort(a, left, right, leftmost, e2, e3);
    }
    PermTrans(a[..], s, old(a[..]), left, right + 1);
  }

  /** Dual-pivot partitioning, then sorting the three parts. */
  method DualPivotSort(a: array<Long>, left: int, right: int, leftmost: bool, e1: int, e2: int, e3: int, e4: int, e5: int)
    requires Samples(left, right, e1, e2, e3, e4, e5) && 0 <= left && right < a.Length
    requires a[e1] < a[e2] < a[e3] < a[e4] < a[e5]
    requires !leftmost ==> 0 < left && Within(a[..], left, right + 1, a[left - 1] as int, MAX_LONG)
    modifies a
    ensures Perm(a[..], old(a[..]), left, right + 1) && Sorted(a[..], left, right + 1)
    decreases right - left + 1, 3
  {
    var less, great, p1, p2 := DualPartition(a, left, right, e2, e3, e4);
    if !leftmost {
      SentinelKept(a[..], old(a[..]), left, right + 1);
    }
    ghost var s1 := a[..];
    DualSortParts(a, left, right, leftmost, less, great, e1, e5, p1, p2);
    PermTrans(a[..], s1, old(a[..]), left, right + 1);
  }

  /** Sorts the three parts left by dual-pivot partitioning. */
  method DualSortParts(a: array<Long>, left: int, right: int, leftmost: bool, less: int, great: int, e1: int, e5: int,
                       p1: Long, p2: Long)
    requires DualParts(a[..], left, right, less, great, p1, p2) && p1 < p2
    requires !leftmost ==> 0 < left && Within(a[..], left, right + 1, a[left - 1] as int, MAX_LONG)
    modifies a
    ensures Perm(a[..], old(a[..]), left, right + 1) && Sorted(a[..], left, right + 1)
    decreases right - left + 1, 2
  {
    DualSortLeft(a, left, right, leftmost, less, great, p1, p2);
    ghost var s1 := a[..];
    DualSortRest(a, left, right, less, great, e1, e5, p1, p2);
    PermTrans(a[..], s1, old(a[..]), left, right + 1);
  }

  /** Sorts the right part and the center part, the left part being sorted. */
  method DualSortRest(a: array<Long>, left: int, right: int, less: int, great: int, e1: int, e5: int,
                      p1: Long, p2: Long)
    requires DualParts(a[..], left, right, less, great, p1, p2) && p1 < p2 && Sorted(a[..], left, less - 1)
    modifies a
    ensures Perm(a[..], old(a[..]), left, right + 1) && Sorted(a[..], left, right + 1)
    decreases right - left + 1, 1
  {
    DualSortRight(a, left, right, less, great, p1, p2);
    ghost var s1 := a[..];
    DualSortCenter(a, left, right, less, great, e1, e5, p1, p2);
    PermTrans(a[..], s1, old(a[..]), left, right + 1);
  }

  /** Sorts the part below pivot1. */
  method DualSortLeft(a: array<Long>, left: int, right: int, leftmost: bool, less: int, great: int, p1: Long, p2: Long)
    requires DualParts(a[..], left, right, less, great, p1, p2)
    requires !leftmost ==> 0 < left && Within(a[..], left, right + 1, a[left - 1] as int, MAX_LONG)
    modifies a
    ensures DualParts(a[..], left, right, less, great, p1, p2) && Perm(a[..], old(a[..]), left, right + 1)
    ensures Sorted(a[..], left, less - 1)
    decreases right - left + 1, 0
  {
    QuickSort(a, left, less - 2, leftmost);
    DualPartsKept(a[..], old(a[..]), left, less - 1, left, right, less, great, p1, p2);
    PermWiden(a[..], old(a[..]), left, less - 1, left, right + 1);
  }

  /** Sorts the part above pivot2, with pivot2 as its sentinel. */
  method DualSortRight(a: array<Long>, left: int, right: int, less: int, great: int, p1: Long, p2: Long)
    requires DualParts(a[..], left, right, less, great, p1, p2) && Sorted(a[..], left, less - 1)
    modifies a
    ensures DualParts(a[..], left, right, less, great, p1, p2) && Perm(a[..], old(a[..]), left, right + 1)
    ensures Sorted(a[..], left, less - 1) && Sorted(a[..], great + 2, right + 1)
    decreases right - left + 1, 0
  {
    QuickSort(a, great + 2, right, false);
    DualPartsKept(a[..], old(a[..]), great + 2, right + 1, left, right, less, great, p1, p2);
    PermWiden(a[..], old(a[..]), great + 2, right + 1, left, right + 1);
    SortedFrame(a[..], old(a[..]), great + 2, right + 1, left, less - 1);
  }

  /** Sorts the part between the pivots. */
  method DualSortCenter(a: array<Long>, left: int, right: int, less: int, great: int, e1: int, e5: int, p1: Long, p2: Long)
    requires DualParts(a[..], left, right, less, great, p1, p2) && p1 < p2
    requires Sorted(a[..], left, less - 1) && Sorted(a[..], great + 2, right + 1)
    modifies a
    ensures Perm(a[..], old(a[..]), left, right + 1) && Sorted(a[..], left, right + 1)
    decreases right - left + 1, 0
  {
    SortCenter(a, less, great, e1, e5, p1, p2);
    DualPartsKept(a[..], old(a[..]), less, great + 1, left, right, less, great, p1, p2);
    PermWiden(a[..], old(a[..]), less, great + 1, left, right + 1);
    SortedFrame(a[..], old(a[..]), less, great + 1, left, less - 1);
    SortedFrame(a[..], old(a[..]), less, great + 1, great + 2, right + 1);
    DualSorted(a[..], left, right, less, great, p1, p2);
  }

  /**
   * Sorts the center part a[less..great], between pivot1 at less - 1 and pivot2 at great + 1;
   * when it spans the outer samples e1 and e5 it is center-partitioned first.
   */
  method SortCenter(a: array<Long>, less: int, great: int, e1: int, e5: int, p1: Long, p2: Long)
    requires 0 < less <= great + 1 < a.Length && a[less - 1] == p1 && a[great + 1] == p2 && p1 < p2
    requires Within(a[..], less, great + 1, p1 as int, p2 as int)
    modifies a
    ensures Perm(a[..], old(a[..]), less, great + 1) && Sorted(a[..], less, great + 1)
    decreases great - less + 1, 5
  {
    if less < e1 && e5 < great {
      var l, g := CenterPartition(a, less, great + 1, p1, p2);
      FrameAt(a[..], old(a[..]), less, great + 1, less - 1);
      assert a[l - 1] == p1;
      ghost var s := a[..];
      QuickSort(a, l, g, false);
      PermStep(a[..], s, old(a[..]), l, g + 1, less, great + 1);
      PermWithin(a[..], s, l, g + 1, l, g + 1, p1 as int + 1, p2 as int - 1);
      WithinFrame(a[..], s, l, g + 1, less, l, p1 as int, p1 as int);
      WithinFrame(a[..], s, l, g + 1, g + 1, great + 1, p2 as int, p2 as int);
      CenterSorted(a[..], less, great + 1, l, g, p1, p2);
    } else {
      QuickSort(a, less, great, false);
    }
  }

  /** Sorting one of the two outer parts keeps the shape left by single-pivot partitioning. */
  lemma SinglePartsKept(t: seq<Long>, s: seq<Long>, lo: int, hi: int, left: int, right: int, less: int, great: int,
                        pivot: Long)
    requires SingleParts(s, left, right, less, great, pivot) && Perm(t, s, lo, hi)
    requires (lo == left && hi == less) || (lo == great + 1 && hi == right + 1)
    ensures SingleParts(t, left, right, less, great, pivot)
  {
    if lo == left {
      PermWithin(t, s, lo, hi, lo, hi, MIN_LONG, pivot as int - 1);
      WithinFrame(t, s, lo, hi, less, great + 1, pivot as int, pivot as int);
      WithinFrame(t, s, lo, hi, great + 1, right + 1, pivot as int, MAX_LONG);
    } else {
      WithinFrame(t, s, lo, hi, left, less, MIN_LONG, pivot as int - 1);
      WithinFrame(t, s, lo, hi, less, great + 1, pivot as int, pivot as int);
      PermWithin(t, s, lo, hi, lo, hi, pivot as int, MAX_LONG);
    }
  }

  /** Single-pivot partitioning, then sorting the two outer parts. */
  method SinglePivotSort(a: array<Long>, left: int, right: int, leftmost: bool, e2: int, e3: int)
    requires 0 <= left < e2 < e3 < right < a.Length && a[e2] <= a[e3]
    requires !leftmost ==> 0 < left && Within(a[..], left, right + 1, a[left - 1] as int, MAX_LONG)
    modifies a
    ensures Perm(a[..], old(a[..]), left, right + 1) && Sorted(a[..], left, right + 1)
    decreases right - left + 1, 3
  {
    var less, great, pivot := SinglePartition(a, left, right, e2, e3);
    if !leftmost {
      SentinelKept(a[..], old(a[..]), left, right + 1);
    }
    ghost var s1 := a[..];
    SingleSortLeft(a, left, right, leftmost, less, great, pivot);
    ghost var s2 := a[..];
    SingleSortRight(a, left, right, less, great, pivot);
    PermTrans(a[..], s2, s1, left, right + 1);
    PermTrans(a[..], s1, old(a[..]), left, right + 1);
    SingleSorted(a[..], left, right, less, great, pivot);
  }

  /** Sorts the part below the pivot. */
  method SingleSortLeft(a: array<Long>, left: int, right: int, leftmost: bool, less: int, great: int, pivot: Long)
    requires SingleParts(a[..], left, right, less, great, pivot)
    requires !leftmost ==> 0 < left && Within(a[..], left, right + 1, a[left - 1] as int, MAX_LONG)
    modifies a
    ensures SingleParts(a[..], left, right, less, great, pivot) && Perm(a[..], old(a[..]), left, right + 1)
    ensures Sorted(a[..], left, less)
    decreases right - left + 1, 0
  {
    QuickSort(a, left, less - 1, leftmost);
    SinglePartsKept(a[..], old(a[..]), left, less, left, right, less, great, pivot);
    PermWiden(a[..], old(a[..]), left, less, left, right + 1);
  }

  /** Sorts the part not below the pivot, with a[great] as its sentinel. */
  method SingleSortRight(a: array<Long>, left: int, right: int, less: int, great: int, pivot: Long)
    requires SingleParts(a[..], left, right, less, great, pivot) && Sorted(a[..], left, less)
    modifies a
    ensures SingleParts(a[..], left, right, less, great, pivot) && Perm(a[..], old(a[..]), left, right + 1)
    ensures Sorted(a[..], left, less) && Sorted(a[..], great + 1, right + 1)
    decreases right - left + 1, 0
  {
    assert a[great] <= pivot;
    QuickSort(a, great + 1, right, false);
    SinglePartsKept(a[..], old(a[..]), great + 1, right + 1, left, right, less, great, pivot);
    PermWiden(a[..], old(a[..]), great + 1, right + 1, left, right + 1);
    SortedFrame(a[..], old(a[..]), great + 1, right + 1, left, less);
  }
}
