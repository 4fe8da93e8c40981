/**
 * `slice::sort_by` with a caller's comparator, as a stable insertion sort:
 * the functional definition, the in-place algorithm proved equal to it, and
 * the facts a stable sort promises (a permutation, sorted when the
 * comparator is a total preorder, ties kept in input order).
 */
module Sorting {
  import opened Seqs

  /** `std::cmp::Ordering`. */
  datatype Ordering = Less | Equal | Greater

  /** `Ordering::then`: the first decides unless it is `Equal`. */
  function Then(first: Ordering, second: Ordering): Ordering
  {
    if first == Equal then second else first
  }

  /** `Ordering::reverse`. */
  function Reverse(o: Ordering): Ordering
  {
    match o
    case Less => Greater
    case Equal => Equal
    case Greater => Less
  }

  /**
   * One insertion step: `x` moves left past the elements that compare
   * `Greater` than it, starting from the end.
   */
  function InsertBack<T>(sorted: seq<T>, x: T, cmp: (T, T) -> Ordering): (r: seq<T>)
    ensures |r| == |sorted| + 1
    decreases |sorted|
  {
    if sorted == [] then [x]
    else if cmp(sorted[|sorted| - 1], x) == Greater then
      InsertBack(sorted[..|sorted| - 1], x, cmp) + [sorted[|sorted| - 1]]
    else sorted + [x]
  }

  /** The result of sorting `s` with `cmp`: each element inserted in turn. */
  function StableSort<T>(s: seq<T>, cmp: (T, T) -> Ordering): (r: seq<T>)
    ensures |r| == |s|
    decreases |s|
  {
    if s == [] then [] else InsertBack(StableSort(s[..|s| - 1], cmp), s[|s| - 1], cmp)
  }

  /**
   * Midway through an insertion into `sorted`: `x` has passed every element
   * from `j` on, and the rest of the insertion works on `sorted[..j]` alone.
   */
  ghost predicate InsertingAt<T>(sorted: seq<T>, x: T, cmp: (T, T) -> Ordering, j: nat)
    requires j <= |sorted|
  {
    InsertBack(sorted, x, cmp) == InsertBack(sorted[..j], x, cmp) + sorted[j..]
  }

  /** Passing one more element that compares `Greater` keeps the insertion on track. */
  lemma InsertBackStep<T>(sorted: seq<T>, x: T, cmp: (T, T) -> Ordering, j: nat)
    requires 0 < j <= |sorted| && cmp(sorted[j - 1], x) == Greater
    requires InsertingAt(sorted, x, cmp, j)
    ensures InsertingAt(sorted, x, cmp, j - 1)
  {
    assert sorted[..j][..j - 1] == sorted[..j - 1];
    assert [sorted[j - 1]] + sorted[j..] == sorted[j - 1..];
  }

  /** The insertion stops in front of the first element from the right that is not `Greater`. */
  lemma InsertBackStop<T>(sorted: seq<T>, x: T, cmp: (T, T) -> Ordering, j: nat)
    requires j <= |sorted| && (j == 0 || cmp(sorted[j - 1], x) != Greater)
    ensures InsertBack(sorted[..j], x, cmp) == sorted[..j] + [x]
  {
  }

  /**
   * The inner loop of the insertion sort: moves `a[i]` left past the
   * elements before it that compare `Greater`, by adjacent swaps.
   */
  method InsertLast<T>(a: array<T>, i: nat, cmp: (T, T) -> Ordering)
    requires i < a.Length
    modifies a
    ensures a[..i + 1] == InsertBack(old(a[..i]), old(a[i]), cmp)
    ensures a[i + 1..] == old(a[i + 1..])
  {
    ghost var sorted, after := a[..i], a[i + 1..];
    var x := a[i];
    var j := i;
    assert sorted[..j] == sorted && sorted[j..] == [];
    assert a[..] == sorted[..j] + [x] + sorted[j..] + after;
    while j > 0 && cmp(a[j - 1], x) == Greater
      invariant 0 <= j <= i
      invariant a[..] == sorted[..j] + [x] + sorted[j..] + after
      invariant InsertingAt(sorted, x, cmp, j)
    {
      SwapStep(sorted, x, after, j);
      InsertBackStep(sorted, x, cmp, j);
      a[j - 1], a[j] := x, a[j - 1];
      j := j - 1;
    }
    InsertBackStop(sorted, x, cmp, j);
    Assembled(sorted, x, after, j);
  }

  /** One swap of the inner loop, on the array contents read as a sequence. */
  lemma SwapStep<T>(sorted: seq<T>, x: T, after: seq<T>, j: nat)
    requires 0 < j <= |sorted|
    ensures var cur := sorted[..j] + [x] + sorted[j..] + after;
            cur[j - 1] == sorted[j - 1] && cur[j] == x &&
            cur[j - 1 := x][j := sorted[j - 1]] == sorted[..j - 1] + [x] + sorted[j - 1..] + after
  {
    var cur := sorted[..j] + [x] + sorted[j..] + after;
    var next := sorted[..j - 1] + [x] + sorted[j - 1..] + after;
    assert cur[j - 1] == sorted[j - 1];
    forall k | 0 <= k < |next|
      ensures cur[j - 1 := x][j := sorted[j - 1]][k] == next[k]
    {
      if k < j - 1 {
        assert cur[k] == sorted[k] == next[k];
      } else if j < k <= |sorted| {
        assert cur[k] == sorted[k - 1] == next[k];
      } else if k > |sorted| {
        assert cur[k] == after[k - |sorted| - 1] == next[k];
      }
    }
  }

  /** Where the inner loop stops, the first `|sorted| + 1` cells hold the insertion. */
  lemma Assembled<T>(sorted: seq<T>, x: T, after: seq<T>, j: nat)
    requires j <= |sorted|
    ensures var cur := sorted[..j] + [x] + sorted[j..] + after;
            cur[..|sorted| + 1] == sorted[..j] + [x] + sorted[j..] && cur[|sorted| + 1..] == after
  {
  }

  /** `a.sort_by(cmp)`, in place. */
  method SortBy<T>(a: array<T>, cmp: (T, T) -> Ordering)
    modifies a
    ensures a[..] == StableSort(old(a[..]), cmp)
  {
    ghost var input := a[..];
    var i := 0;
    while i < a.Length
      invariant 0 <= i <= a.Length
      invariant a[..i] == StableSort(input[..i], cmp)
      invariant a[i..] == input[i..]
    {
      assert a[i] == input[i];
      assert input[..i + 1][..i] == input[..i];
      InsertLast(a, i, cmp);
      assert a[i + 1..] == input[i + 1..];
      i := i + 1;
    }
    assert a[..] == a[..a.Length];
    assert input == input[..a.Length];
  }

  lemma {:induction false} InsertBackPermutes<T>(sorted: seq<T>, x: T, cmp: (T, T) -> Ordering)
    ensures multiset(InsertBack(sorted, x, cmp)) == multiset(sorted) + multiset{x}
    decreases |sorted|
  {
    if sorted != [] && cmp(sorted[|sorted| - 1], x) == Greater {
      var init := sorted[..|sorted| - 1];
      InsertBackPermutes(init, x, cmp);
      assert sorted == init + [sorted[|sorted| - 1]];
    }
  }

  /** Sorting rearranges: nothing is lost, duplicated or added. */
  lemma {:induction false} StableSortPermutes<T>(s: seq<T>, cmp: (T, T) -> Ordering)
    ensures multiset(StableSort(s, cmp)) == multiset(s)
    decreases |s|
  {
    if s != [] {
      var init := s[..|s| - 1];
      StableSortPermutes(init, cmp);
      InsertBackPermutes(StableSort(init, cmp), s[|s| - 1], cmp);
      assert s == init + [s[|s| - 1]];
    }
  }

  /** Every element of the sorted sequence is one of the input. */
  lemma StableSortElements<T>(s: seq<T>, cmp: (T, T) -> Ordering)
    ensures forall k :: 0 <= k < |StableSort(s, cmp)| ==> StableSort(s, cmp)[k] in s
  {
    StableSortPermutes(s, cmp);
    forall k | 0 <= k < |StableSort(s, cmp)|
      ensures StableSort(s, cmp)[k] in s
    {
      assert StableSort(s, cmp)[k] in multiset(StableSort(s, cmp));
    }
  }

  /**
   * On the elements of `s`, `cmp` is a total preorder: swapping the
   * arguments reverses it, and "not greater" is transitive.
   */
  ghost predicate TotalPreorderOn<T(!new)>(s: seq<T>, cmp: (T, T) -> Ordering)
  {
    (forall x, y :: x in s && y in s ==> cmp(y, x) == Reverse(cmp(x, y))) &&
    (forall x, y, z :: x in s && y in s && z in s && cmp(x, y) != Greater && cmp(y, z) != Greater ==>
                       cmp(x, z) != Greater)
  }

  /** No element is followed by one it compares `Greater` than. */
  predicate Sorted<T>(s: seq<T>, cmp: (T, T) -> Ordering)
  {
    forall i, j :: 0 <= i < j < |s| ==> cmp(s[i], s[j]) != Greater
  }

  lemma {:induction false} InsertBackSorted<T(!new)>(sorted: seq<T>, x: T, cmp: (T, T) -> Ordering, s: seq<T>)
    requires TotalPreorderOn(s, cmp) && x in s && forall k :: 0 <= k < |sorted| ==> sorted[k] in s
    requires Sorted(sorted, cmp)
    ensures Sorted(InsertBack(sorted, x, cmp), cmp)
    decreases |sorted|
  {
    if sorted != [] {
      var init, last := sorted[..|sorted| - 1], sorted[|sorted| - 1];
      if cmp(last, x) == Greater {
        InsertBackSorted(init, x, cmp, s);
        assert cmp(x, last) == Less;
        InsertBackBelow(init, x, cmp, last);
        SortedSnoc(InsertBack(init, x, cmp), last, cmp);
      } else {
        forall i | 0 <= i < |sorted|
          ensures cmp(sorted[i], x) != Greater
        {
          if i < |sorted| - 1 {
            assert cmp(sorted[i], last) != Greater;
          }
        }
        SortedSnoc(sorted, x, cmp);
      }
    }
  }

  /** Appending an element that nothing before it exceeds keeps a sequence sorted. */
  lemma SortedSnoc<T>(front: seq<T>, y: T, cmp: (T, T) -> Ordering)
    requires Sorted(front, cmp)
    requires forall k :: 0 <= k < |front| ==> cmp(front[k], y) != Greater
    ensures Sorted(front + [y], cmp)
  {
    var r := front + [y];
    forall i, j | 0 <= i < j < |r|
      ensures cmp(r[i], r[j]) != Greater
    {
      assert r[i] == front[i];
      if j < |front| {
        assert r[j] == front[j];
      }
    }
  }

  /** An insertion brings in nothing that exceeds a bound all its parts respect. */
  lemma InsertBackBelow<T>(init: seq<T>, x: T, cmp: (T, T) -> Ordering, y: T)
    requires forall k :: 0 <= k < |init| ==> cmp(init[k], y) != Greater
    requires cmp(x, y) != Greater
    ensures forall k :: 0 <= k < |InsertBack(init, x, cmp)| ==> cmp(InsertBack(init, x, cmp)[k], y) != Greater
  {
    var front := InsertBack(init, x, cmp);
    InsertBackPermutes(init, x, cmp);
    forall k | 0 <= k < |front|
      ensures cmp(front[k], y) != Greater
    {
      assert front[k] in multiset(init) + multiset{x} by {
        assert front[k] in multiset(front);
      }
      if front[k] != x {
        assert front[k] in init;
      }
    }
  }

  /** With a total preorder the result is sorted. */
  lemma {:induction false} StableSortSorted<T(!new)>(s: seq<T>, cmp: (T, T) -> Ordering)
    requires TotalPreorderOn(s, cmp)
    ensures Sorted(StableSort(s, cmp), cmp)
    decreases |s|
  {
    if s != [] {
      var init := s[..|s| - 1];
      assert TotalPreorderOn(init, cmp) by {
        assert forall x :: x in init ==> x in s;
      }
      StableSortSorted(init, cmp);
      StableSortElements(init, cmp);
      assert forall x :: x in init ==> x in s;
      InsertBackSorted(StableSort(init, cmp), s[|s| - 1], cmp, s);
    }
  }

  /** The elements that tie with `y`. */
  function TiesWith<T>(y: T, cmp: (T, T) -> Ordering): T -> bool
  {
    m => cmp(m, y) == Equal
  }

  /** Two elements of `s` that both tie with `y` tie with each other. */
  ghost predicate TiesTransitive<T(!new)>(s: seq<T>, y: T, cmp: (T, T) -> Ordering)
  {
    forall e, x :: e in s && x in s && cmp(e, y) == Equal && cmp(x, y) == Equal ==> cmp(e, x) == Equal
  }

  /** The filtering step of an insertion that passes `last`, which never passes `p` together with `x`. */
  lemma SwapPassed<T>(init: seq<T>, last: T, front: seq<T>, x: T, p: T -> bool)
    requires Filter(front, p) == Filter(init, p) + Filter([x], p)
    requires !(p(last) && p(x))
    ensures Filter(front + [last], p) == Filter(init + [last], p) + Filter([x], p)
  {
    FilterAppend(front, [last], p);
    FilterAppend(init, [last], p);
    FilterOne(x, p);
    FilterOne(last, p);
    ConcatSwap(Filter(init, p), Filter([x], p), Filter([last], p));
  }

  /** Two pieces of which one is empty may change places. */
  lemma ConcatSwap<T>(rest: seq<T>, mid: seq<T>, end: seq<T>)
    requires mid == [] || end == []
    ensures rest + mid + end == rest + end + mid
  {
    if mid == [] {
      assert rest + mid == rest;
    } else {
      assert rest + end == rest;
    }
  }

  lemma {:induction false} InsertBackKeepsTies<T(!new)>(sorted: seq<T>, x: T, cmp: (T, T) -> Ordering, y: T,
                                                        s: seq<T>)
    requires TiesTransitive(s, y, cmp) && x in s && forall k :: 0 <= k < |sorted| ==> sorted[k] in s
    ensures Filter(InsertBack(sorted, x, cmp), TiesWith(y, cmp)) ==
            Filter(sorted, TiesWith(y, cmp)) + Filter([x], TiesWith(y, cmp))
    decreases |sorted|
  {
    var p := TiesWith(y, cmp);
    if sorted == [] {
      assert [] + [x] == [x];
    } else {
      var init, last := sorted[..|sorted| - 1], sorted[|sorted| - 1];
      if cmp(last, x) == Greater {
        InsertBackKeepsTies(init, x, cmp, y, s);
        SwapPassed(init, last, InsertBack(init, x, cmp), x, p);
        assert sorted == init + [last];
      } else {
        FilterAppend(sorted, [x], p);
      }
    }
  }

  /** The sort is stable: the elements that tie with `y` keep their input order. */
  lemma {:induction false} StableSortKeepsTies<T(!new)>(s: seq<T>, cmp: (T, T) -> Ordering, y: T)
    requires TiesTransitive(s, y, cmp)
    ensures Filter(StableSort(s, cmp), TiesWith(y, cmp)) == Filter(s, TiesWith(y, cmp))
    decreases |s|
  {
    if s != [] {
      var init, last := s[..|s| - 1], s[|s| - 1];
      assert TiesTransitive(init, y, cmp) by {
        assert forall x :: x in init ==> x in s;
      }
      StableSortKeepsTies(init, cmp, y);
      StableSortElements(init, cmp);
      assert forall x :: x in init ==> x in s;
      InsertBackKeepsTies(StableSort(init, cmp), last, cmp, y, s);
      assert s == init + [last];
      FilterAppend(init, [last], TiesWith(y, cmp));
    }
  }
}
