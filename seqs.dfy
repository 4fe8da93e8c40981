/**
 * The iterator adaptors the display code is built from (`filter`,
 * `filter_map`, `find`, `flat_map`-style accumulation and the
 * "push unless already present" de-duplication), as functions on sequences.
 * Each is given an independent characterisation so that the callers can be
 * reasoned about without unfolding bodies.
 */
module Seqs {
  import opened Wrappers

  /** `iter().filter(p).collect()`: the elements satisfying `p`, in order. */
  function Filter<T>(s: seq<T>, p: T -> bool): (r: seq<T>)
    ensures |r| <= |s|
    ensures forall k :: 0 <= k < |r| ==> r[k] in s && p(r[k])
    ensures forall k :: 0 <= k < |s| && p(s[k]) ==> s[k] in r
    decreases |s|
  {
    if s == [] then [] else (if p(s[0]) then [s[0]] else []) + Filter(s[1..], p)
  }

  lemma FilterOne<T>(x: T, p: T -> bool)
    ensures Filter([x], p) == if p(x) then [x] else []
  {
    assert [x][1..] == [];
  }

  /** Filtering distributes over concatenation: the order of the input is kept. */
  lemma {:induction false} FilterAppend<T>(a: seq<T>, b: seq<T>, p: T -> bool)
    ensures Filter(a + b, p) == Filter(a, p) + Filter(b, p)
    decreases |a|
  {
    if a == [] {
      assert a + b == b;
    } else {
      assert (a + b)[1..] == a[1..] + b;
      FilterAppend(a[1..], b, p);
    }
  }

  /** Keeping every element, or none, of a sequence. */
  lemma {:induction false} FilterAll<T>(s: seq<T>, p: T -> bool)
    requires forall k :: 0 <= k < |s| ==> p(s[k])
    ensures Filter(s, p) == s
    decreases |s|
  {
    if s != [] {
      FilterAll(s[1..], p);
    }
  }

  /** `iter().filter_map(f).collect()`. */
  function FilterMap<T, U>(s: seq<T>, f: T -> Option<U>): (r: seq<U>)
    ensures |r| <= |s|
    decreases |s|
  {
    if s == [] then []
    else (if f(s[0]).Some? then [f(s[0]).value] else []) + FilterMap(s[1..], f)
  }

  /**
   * A `filter_map` is a `filter` on the elements `f` maps to `Some`, followed
   * by a `map`; `p` names that test.
   */
  lemma {:induction false} FilterMapIsFilterThenMap<T, U>(s: seq<T>, f: T -> Option<U>, p: T -> bool)
    requires forall x :: p(x) <==> f(x).Some?
    ensures |FilterMap(s, f)| == |Filter(s, p)|
    ensures forall k :: 0 <= k < |Filter(s, p)| ==> FilterMap(s, f)[k] == f(Filter(s, p)[k]).value
    decreases |s|
  {
    if s != [] {
      FilterMapIsFilterThenMap(s[1..], f, p);
    }
  }

  /** When every `Some` of `f` comes from an element satisfying `p`, `filter_map` keeps no more than `filter`. */
  lemma {:induction false} FilterMapWithin<T, U>(s: seq<T>, f: T -> Option<U>, p: T -> bool)
    requires forall x :: f(x).Some? ==> p(x)
    ensures |FilterMap(s, f)| <= |Filter(s, p)|
    decreases |s|
  {
    if s != [] {
      FilterMapWithin(s[1..], f, p);
    }
  }

  /** `iter().find(p)`: the first element satisfying `p`, if any. */
  function Find<T>(s: seq<T>, p: T -> bool): (r: Option<T>)
    ensures r.None? <==> forall k :: 0 <= k < |s| ==> !p(s[k])
    ensures r.Some? ==> exists k :: 0 <= k < |s| && s[k] == r.value && p(s[k]) &&
                                    forall j :: 0 <= j < k ==> !p(s[j])
    decreases |s|
  {
    if s == [] then None
    else if p(s[0]) then Some(s[0])
    else
      var r := Find(s[1..], p);
      assert r.Some? ==> exists k :: 0 <= k < |s[1..]| && s[1..][k] == r.value && p(s[1..][k]) &&
                                     forall j :: 0 <= j < k ==> !p(s[1..][j]);
      assert forall k :: 0 < k < |s| ==> s[k] == s[1..][k - 1];
      r
  }

  /** The first element that `filter` keeps is the one `find` returns. */
  lemma {:induction false} FilterHeadIsFind<T>(s: seq<T>, p: T -> bool)
    ensures Filter(s, p) == [] <==> Find(s, p).None?
    ensures Filter(s, p) != [] ==> Filter(s, p)[0] == Find(s, p).value
    decreases |s|
  {
    if s != [] && !p(s[0]) {
      FilterHeadIsFind(s[1..], p);
    }
  }

  /** `map`: `f` applied to every element, in order. */
  function Map<T, U>(s: seq<T>, f: T -> U): (r: seq<U>)
    ensures |r| == |s|
    ensures forall k :: 0 <= k < |s| ==> r[k] == f(s[k])
  {
    seq(|s|, k requires 0 <= k < |s| => f(s[k]))
  }

  lemma MapAppend<T, U>(a: seq<T>, b: seq<T>, f: T -> U)
    ensures Map(a + b, f) == Map(a, f) + Map(b, f)
  {
    assert forall k :: 0 <= k < |b| ==> (a + b)[|a| + k] == b[k];
  }

  /**
   * The concatenation of a sequence of sequences, built by appending one
   * part after another (`extend` in a loop).
   */
  function Flatten<T>(parts: seq<seq<T>>): (r: seq<T>)
    decreases |parts|
  {
    if parts == [] then [] else Flatten(parts[..|parts| - 1]) + parts[|parts| - 1]
  }

  /** The sum of the lengths of the parts. */
  function TotalLength<T>(parts: seq<seq<T>>): nat
    decreases |parts|
  {
    if parts == [] then 0 else TotalLength(parts[..|parts| - 1]) + |parts[|parts| - 1]|
  }

  /** Where part `k` begins in the flattened sequence. */
  function Offset<T>(parts: seq<seq<T>>, k: nat): nat
    requires k <= |parts|
  {
    TotalLength(parts[..k])
  }

  /** Flattening keeps every element: the length is the sum of the parts' lengths. */
  lemma {:induction false} FlattenLength<T>(parts: seq<seq<T>>)
    ensures |Flatten(parts)| == TotalLength(parts)
    decreases |parts|
  {
    if parts != [] {
      FlattenLength(parts[..|parts| - 1]);
    }
  }

  /** Flattening a prefix gives a prefix of the flattened sequence. */
  lemma {:induction false} FlattenPrefix<T>(parts: seq<seq<T>>, k: nat)
    requires k <= |parts|
    ensures |Flatten(parts[..k])| <= |Flatten(parts)|
    ensures Flatten(parts)[..|Flatten(parts[..k])|] == Flatten(parts[..k])
    decreases |parts|
  {
    if k < |parts| {
      var init := parts[..|parts| - 1];
      assert init[..k] == parts[..k];
      FlattenPrefix(init, k);
    } else {
      assert parts[..k] == parts;
    }
  }

  /** Part `k` sits, unchanged and contiguous, at its offset in the flattened sequence. */
  lemma {:induction false} FlattenPart<T>(parts: seq<seq<T>>, k: nat)
    requires k < |parts|
    ensures Offset(parts, k) + |parts[k]| == Offset(parts, k + 1) <= |Flatten(parts)|
    ensures Flatten(parts)[Offset(parts, k)..Offset(parts, k + 1)] == parts[k]
  {
    var pre := parts[..k + 1];
    assert pre[..|pre| - 1] == parts[..k];
    FlattenLength(pre);
    FlattenLength(parts[..k]);
    FlattenPrefix(parts, k + 1);
    assert Flatten(pre) == Flatten(parts[..k]) + parts[k];
  }

  /** Whether the sequence holds no element twice. */
  predicate NoDuplicates<T(==)>(s: seq<T>)
  {
    forall i, j :: 0 <= i < j < |s| ==> s[i] != s[j]
  }

  /** The index of the first occurrence of `x` in `s`. */
  function FirstIndex<T(==)>(s: seq<T>, x: T): (k: nat)
    requires x in s
    ensures k < |s| && s[k] == x && x !in s[..k]
    decreases |s|
  {
    if s[0] == x then 0 else 1 + FirstIndex(s[1..], x)
  }

  /**
   * The distinct elements of `s`, in the order a loop meets them when it
   * pushes each element unless it is already present.
   */
  function Dedup<T(==)>(s: seq<T>): (d: seq<T>)
    decreases |s|
  {
    if s == [] then []
    else
      var d := Dedup(s[..|s| - 1]);
      if s[|s| - 1] in d then d else d + [s[|s| - 1]]
  }

  /**
   * `Dedup` is characterised by three facts: it holds exactly the elements of
   * `s`, none twice, ordered by where each first occurs in `s`.
   */
  lemma DedupSpec<T>(s: seq<T>)
    ensures forall x :: x in Dedup(s) <==> x in s
    ensures NoDuplicates(Dedup(s))
    ensures forall i, j :: 0 <= i < j < |Dedup(s)| ==>
              FirstIndex(s, Dedup(s)[i]) < FirstIndex(s, Dedup(s)[j])
  {
    DedupElements(s);
    DedupNoDuplicates(s);
    DedupOrder(s);
  }

  lemma {:induction false} DedupElements<T>(s: seq<T>)
    ensures forall x :: x in Dedup(s) <==> x in s
    decreases |s|
  {
    if s != [] {
      DedupElements(s[..|s| - 1]);
      assert s == s[..|s| - 1] + [s[|s| - 1]];
    }
  }

  lemma {:induction false} DedupNoDuplicates<T>(s: seq<T>)
    ensures NoDuplicates(Dedup(s))
    decreases |s|
  {
    if s != [] {
      DedupNoDuplicates(s[..|s| - 1]);
    }
  }

  lemma DedupOrder<T>(s: seq<T>)
    ensures forall x :: x in Dedup(s) ==> x in s
    ensures forall i, j :: 0 <= i < j < |Dedup(s)| ==>
              FirstIndex(s, Dedup(s)[i]) < FirstIndex(s, Dedup(s)[j])
  {
    DedupElements(s);
    forall i, j | 0 <= i < j < |Dedup(s)|
      ensures FirstIndex(s, Dedup(s)[i]) < FirstIndex(s, Dedup(s)[j])
    {
      DedupOrderPair(s, i, j);
    }
  }

  /** Two distinct elements appear in the order of their first occurrences. */
  lemma {:induction false} DedupOrderPair<T>(s: seq<T>, i: nat, j: nat)
    requires i < j < |Dedup(s)|
    ensures Dedup(s)[i] in s && Dedup(s)[j] in s && FirstIndex(s, Dedup(s)[i]) < FirstIndex(s, Dedup(s)[j])
    decreases |s|
  {
    var init, x := s[..|s| - 1], s[|s| - 1];
    assert s == init + [x];
    if j < |Dedup(init)| {
      DedupOrderPair(init, i, j);
    }
    DedupSnocPair(init, x, i, j);
  }

  /** The step of `DedupOrderPair`: appending `x` keeps a pair's order, or puts `x` after the rest. */
  lemma DedupSnocPair<T>(init: seq<T>, x: T, i: nat, j: nat)
    requires i < j < |Dedup(init + [x])|
    requires j < |Dedup(init)| ==>
               Dedup(init)[i] in init && Dedup(init)[j] in init &&
               FirstIndex(init, Dedup(init)[i]) < FirstIndex(init, Dedup(init)[j])
    ensures Dedup(init + [x])[i] in init + [x] && Dedup(init + [x])[j] in init + [x] &&
            FirstIndex(init + [x], Dedup(init + [x])[i]) < FirstIndex(init + [x], Dedup(init + [x])[j])
  {
    var d := Dedup(init);
    DedupIndexIn(init, i);
    if j < |d| {
      DedupIndexIn(init, j);
    } else {
      DedupMember(init, x);
    }
    assert (init + [x])[..|init|] == init;
    assert Dedup(init + [x]) == if x in d then d else d + [x];
    FirstIndexPrefix(init, [x], d[i]);
    if j < |d| {
      FirstIndexPrefix(init, [x], d[j]);
    } else {
      FirstIndexOfNew(init, x);
    }
  }

  /** Every element of `Dedup(s)` is one of `s`. */
  lemma DedupIndexIn<T>(s: seq<T>, i: nat)
    requires i < |Dedup(s)|
    ensures Dedup(s)[i] in s
  {
    DedupElements(s);
    assert Dedup(s)[i] in Dedup(s);
  }

  /** One element is in `Dedup(s)` exactly when it is in `s`. */
  lemma DedupMember<T>(s: seq<T>, x: T)
    ensures x in Dedup(s) <==> x in s
  {
    DedupElements(s);
  }

  /** An element new to `init` first occurs where it is appended. */
  lemma FirstIndexOfNew<T>(init: seq<T>, x: T)
    requires x !in init
    ensures x in init + [x] && FirstIndex(init + [x], x) == |init|
  {
    assert (init + [x])[|init|] == x;
  }

  /** Appending after the first occurrence does not move it. */
  lemma {:induction false} FirstIndexPrefix<T>(a: seq<T>, b: seq<T>, x: T)
    requires x in a
    ensures FirstIndex(a + b, x) == FirstIndex(a, x)
    decreases |a|
  {
    if a[0] != x {
      assert (a + b)[1..] == a[1..] + b;
      FirstIndexPrefix(a[1..], b, x);
    }
  }
}
