/**
 * `Array.prototype.sort` with a comparator, as both tables call it: a stable
 * sort (ECMAScript 2019 and later require stability). It is specified by a
 * left-to-right insertion sort on sequences, and carried out in place on an
 * array by `SortInPlace`.
 */
module Sorting {
  import opened Seqs

  function Sign(x: int): int {
    if x < 0 then -1 else if x > 0 then 1 else 0
  }

  /**
   * What a consistent comparator must satisfy: swapping the arguments flips
   * the sign, and "not after" is transitive.
   */
  ghost predicate TotalPreorder<T(!new)>(cmp: (T, T) -> int) {
    && (forall a, b :: Sign(cmp(a, b)) == -Sign(cmp(b, a)))
    && (forall a, b, c :: cmp(a, b) <= 0 && cmp(b, c) <= 0 ==> cmp(a, c) <= 0)
  }

  /** Every element is ordered no later than every element after it. */
  ghost predicate Sorted<T>(s: seq<T>, cmp: (T, T) -> int) {
    forall i, j :: 0 <= i < j < |s| ==> cmp(s[i], s[j]) <= 0
  }

  /** The elements that the comparator ties with `k`. */
  function TiedWith<T>(cmp: (T, T) -> int, k: T): T -> bool {
    z => cmp(z, k) == 0
  }

  /**
   * Inserts `x` after every element of `t` that is not ordered after it,
   * scanning from the right as an insertion sort shifts elements.
   */
  function Insert<T>(t: seq<T>, x: T, cmp: (T, T) -> int): (r: seq<T>)
    ensures |r| == |t| + 1
    decreases |t|
  {
    if t == [] then [x]
    else if cmp(t[|t| - 1], x) > 0 then
      Insert(t[..|t| - 1], x, cmp) + [t[|t| - 1]]
    else t + [x]
  }

  /** Stable insertion sort: the specification of the array sort below. */
  function Sort<T>(s: seq<T>, cmp: (T, T) -> int): (r: seq<T>)
    ensures |r| == |s|
    decreases |s|
  {
    if s == [] then []
    else
      Insert(Sort(s[..|s| - 1], cmp), s[|s| - 1], cmp)
  }

  lemma {:induction false} InsertPermutes<T>(t: seq<T>, x: T, cmp: (T, T) -> int)
    ensures multiset(Insert(t, x, cmp)) == multiset(t) + multiset{x}
  {
    if t != [] && cmp(t[|t| - 1], x) > 0 {
      var init, last := t[..|t| - 1], t[|t| - 1];
      InsertPermutes(init, x, cmp);
      assert Insert(t, x, cmp) == Insert(init, x, cmp) + [last];
      assert t == init + [last];
    }
  }

  /** The sort returns a permutation of its input. */
  lemma {:induction false} SortPermutes<T>(s: seq<T>, cmp: (T, T) -> int)
    ensures multiset(Sort(s, cmp)) == multiset(s)
  {
    if s != [] {
      var init, last := s[..|s| - 1], s[|s| - 1];
      SortPermutes(init, cmp);
      InsertPermutes(Sort(init, cmp), last, cmp);
      assert Sort(s, cmp) == Insert(Sort(init, cmp), last, cmp);
      PermutesStep(s, init, last, Sort(init, cmp), Sort(s, cmp));
    }
  }

  lemma PermutesStep<T>(s: seq<T>, init: seq<T>, last: T, sortedInit: seq<T>, sorted: seq<T>)
    requires s != [] && init == s[..|s| - 1] && last == s[|s| - 1]
    requires multiset(sortedInit) == multiset(init)
    requires multiset(sorted) == multiset(sortedInit) + multiset{last}
    ensures multiset(sorted) == multiset(s)
  {
    assert s == init + [last];
  }

  /** Everything in the sorted `init` is ordered no later than the `last` that follows it. */
  lemma AllBeforeLast<T(!new)>(init: seq<T>, last: T, x: T, cmp: (T, T) -> int)
    requires TotalPreorder(cmp)
    requires forall i :: 0 <= i < |init| ==> cmp(init[i], last) <= 0
    requires cmp(last, x) > 0
    ensures forall i :: 0 <= i < |Insert(init, x, cmp)| ==> cmp(Insert(init, x, cmp)[i], last) <= 0
  {
    var u := Insert(init, x, cmp);
    InsertPermutes(init, x, cmp);
    forall i | 0 <= i < |u| ensures cmp(u[i], last) <= 0 {
      assert u[i] in multiset(u);
      if u[i] != x {
        assert u[i] in multiset(init);
      }
    }
  }

  lemma {:induction false} InsertSorted<T(!new)>(t: seq<T>, x: T, cmp: (T, T) -> int)
    requires TotalPreorder(cmp) && Sorted(t, cmp)
    ensures Sorted(Insert(t, x, cmp), cmp)
  {
    if t != [] {
      var last := t[|t| - 1];
      var init := t[..|t| - 1];
      if cmp(last, x) > 0 {
        assert Sorted(init, cmp);
        InsertSorted(init, x, cmp);
        AllBeforeLast(init, last, x, cmp);
      } else {
        assert forall i :: 0 <= i < |t| ==> cmp(t[i], x) <= 0;
      }
    }
  }

  /** The sort orders its result by the comparator. */
  lemma {:induction false} SortSorted<T(!new)>(s: seq<T>, cmp: (T, T) -> int)
    requires TotalPreorder(cmp)
    ensures Sorted(Sort(s, cmp), cmp)
  {
    if s != [] {
      SortSorted(s[..|s| - 1], cmp);
      InsertSorted(Sort(s[..|s| - 1], cmp), s[|s| - 1], cmp);
    }
  }

  /** A comparator's negation is again a consistent total preorder. */
  lemma NegatedTotal<T(!new)>(cmp: (T, T) -> int, rev: (T, T) -> int)
    requires TotalPreorder(cmp)
    requires forall a, b :: rev(a, b) == -cmp(a, b)
    ensures TotalPreorder(rev)
  {
    forall a, b, c | rev(a, b) <= 0 && rev(b, c) <= 0 ensures rev(a, c) <= 0 {
      assert Sign(cmp(b, a)) == -Sign(cmp(a, b)) && Sign(cmp(c, b)) == -Sign(cmp(b, c));
      assert cmp(c, a) <= 0;
      assert Sign(cmp(a, c)) == -Sign(cmp(c, a));
    }
  }

  /**
   * Sorting by the negated comparator reverses every strictly ordered pair:
   * when `x` comes strictly before `y`, every occurrence of `x` precedes
   * every occurrence of `y` in the sort by `cmp`, and follows it in the
   * sort by `rev`.
   */
  lemma FlipReverses<T(!new)>(s: seq<T>, cmp: (T, T) -> int, rev: (T, T) -> int, x: T, y: T)
    requires TotalPreorder(cmp)
    requires forall a, b :: rev(a, b) == -cmp(a, b)
    requires cmp(x, y) < 0
    ensures var r := Sort(s, cmp);
            forall i, j :: 0 <= i < |r| && 0 <= j < |r| && r[i] == x && r[j] == y ==> i < j
    ensures var r := Sort(s, rev);
            forall i, j :: 0 <= i < |r| && 0 <= j < |r| && r[i] == y && r[j] == x ==> i < j
  {
    NegatedTotal(cmp, rev);
    SortSorted(s, cmp);
    SortSorted(s, rev);
    assert Sign(cmp(y, x)) == -Sign(cmp(x, y));
    assert Sign(cmp(x, x)) == -Sign(cmp(x, x));
  }

  /** An out-of-order pair is never tied with `k` on both sides: all stability asks of `cmp`. */
  ghost predicate SeparatesTies<T(!new)>(cmp: (T, T) -> int, k: T) {
    forall a, b :: cmp(a, b) > 0 ==> !(cmp(a, k) == 0 && cmp(b, k) == 0)
  }

  lemma PreorderSeparatesTies<T(!new)>(cmp: (T, T) -> int, k: T)
    requires TotalPreorder(cmp)
    ensures SeparatesTies(cmp, k)
  {
    forall a, b | cmp(a, b) > 0 ensures !(cmp(a, k) == 0 && cmp(b, k) == 0) {
      assert Sign(cmp(k, b)) == -Sign(cmp(b, k));
    }
  }

  lemma FilterSingle<T(!new)>(x: T, p: T -> bool)
    ensures Filter([x], p) == if p(x) then [x] else []
  {
    assert [x][1..] == [];
  }

  lemma SwapEmpty<T>(a: seq<T>, b: seq<T>, c: seq<T>)
    requires b == [] || c == []
    ensures a + b + c == a + c + b
  {
    if b == [] {
      assert a + b == a && a + c + b == a + c;
    } else {
      assert a + c == a && a + b + c == a + b;
    }
  }

  /** The step of `InsertStable` where `x` moves in front of the last element. */
  lemma InsertStableStep<T(!new)>(init: seq<T>, last: T, x: T, cmp: (T, T) -> int, p: T -> bool)
    requires cmp(last, x) > 0
    requires !(p(last) && p(x))
    requires Filter(Insert(init, x, cmp), p) == Filter(init, p) + Filter([x], p)
    ensures Filter(Insert(init + [last], x, cmp), p) == Filter(init + [last], p) + Filter([x], p)
  {
    var t := init + [last];
    assert t[..|t| - 1] == init;
    assert Insert(t, x, cmp) == Insert(init, x, cmp) + [last];
    FilterAppend(Insert(init, x, cmp), [last], p);
    FilterAppend(init, [last], p);
    FilterSingle(last, p);
    FilterSingle(x, p);
    SwapEmpty(Filter(init, p), Filter([x], p), Filter([last], p));
  }

  lemma {:induction false} InsertStable<T(!new)>(t: seq<T>, x: T, cmp: (T, T) -> int, k: T)
    requires SeparatesTies(cmp, k)
    ensures Filter(Insert(t, x, cmp), TiedWith(cmp, k))
         == Filter(t, TiedWith(cmp, k)) + Filter([x], TiedWith(cmp, k))
  {
    var p := TiedWith(cmp, k);
    if t == [] {
      assert Insert(t, x, cmp) == [x];
    } else {
      var last := t[|t| - 1];
      var init := t[..|t| - 1];
      assert t == init + [last];
      if cmp(last, x) > 0 {
        InsertStable(init, x, cmp, k);
        // `last` and `x` are in different classes, so at most one of them is kept.
        InsertStableStep(init, last, x, cmp, p);
      } else {
        FilterAppend(t, [x], p);
      }
    }
  }

  /**
   * Stability: among the elements tied with any `k`, the sort keeps their
   * original relative order.
   */
  lemma SortStable<T(!new)>(s: seq<T>, cmp: (T, T) -> int, k: T)
    requires TotalPreorder(cmp)
    ensures Filter(Sort(s, cmp), TiedWith(cmp, k)) == Filter(s, TiedWith(cmp, k))
  {
    PreorderSeparatesTies(cmp, k);
    SortStableTies(s, cmp, k);
  }

  lemma {:induction false} SortStableTies<T(!new)>(s: seq<T>, cmp: (T, T) -> int, k: T)
    requires SeparatesTies(cmp, k)
    ensures Filter(Sort(s, cmp), TiedWith(cmp, k)) == Filter(s, TiedWith(cmp, k))
  {
    if s != [] {
      var init, last := s[..|s| - 1], s[|s| - 1];
      SortStableTies(init, cmp, k);
      InsertStable(Sort(init, cmp), last, cmp, k);
      assert Sort(s, cmp) == Insert(Sort(init, cmp), last, cmp);
      assert s == init + [last];
      AppendStep(init, last, TiedWith(cmp, k), Sort(init, cmp), Sort(s, cmp));
    }
  }

  lemma AppendStep<T(!new)>(init: seq<T>, last: T, p: T -> bool, sortedInit: seq<T>, sorted: seq<T>)
    requires Filter(sortedInit, p) == Filter(init, p)
    requires Filter(sorted, p) == Filter(sortedInit, p) + Filter([last], p)
    ensures Filter(sorted, p) == Filter(init + [last], p)
  {
    FilterAppend(init, [last], p);
  }

  /** A list that is already in order is left as it is, so sorting twice changes nothing. */
  lemma {:induction false} SortOfSorted<T>(s: seq<T>, cmp: (T, T) -> int)
    requires Sorted(s, cmp)
    ensures Sort(s, cmp) == s
  {
    if s != [] {
      var init, last := s[..|s| - 1], s[|s| - 1];
      SortedSplit(s, cmp);
      SortOfSorted(init, cmp);
      assert Sort(s, cmp) == Insert(Sort(init, cmp), last, cmp);
      InsertAtEnd(init, last, cmp);
      assert init + [last] == s;
    }
  }

  /** The front of a sorted list is sorted, and its last element is not ordered after the one that follows. */
  lemma SortedSplit<T>(s: seq<T>, cmp: (T, T) -> int)
    requires s != [] && Sorted(s, cmp)
    ensures Sorted(s[..|s| - 1], cmp)
    ensures |s| > 1 ==> cmp(s[|s| - 2], s[|s| - 1]) <= 0
  {
    var init := s[..|s| - 1];
    forall i, j | 0 <= i < j < |init| ensures cmp(init[i], init[j]) <= 0 {
      assert init[i] == s[i] && init[j] == s[j];
    }
  }

  /** An element not ordered before the last of `t` goes at the end. */
  lemma InsertAtEnd<T>(t: seq<T>, x: T, cmp: (T, T) -> int)
    requires |t| > 0 ==> cmp(t[|t| - 1], x) <= 0
    ensures Insert(t, x, cmp) == t + [x]
  {
  }

  /** A comparator that ties everything (the "unknown key" branch) keeps the original order. */
  lemma {:induction false} SortAllTied<T>(s: seq<T>, cmp: (T, T) -> int)
    requires forall i, j :: 0 <= i < |s| && 0 <= j < |s| ==> cmp(s[i], s[j]) == 0
    ensures Sort(s, cmp) == s
  {
    if s != [] {
      var init := s[..|s| - 1];
      assert forall i, j :: 0 <= i < |init| && 0 <= j < |init| ==> cmp(init[i], init[j]) == 0 by {
        forall i, j | 0 <= i < |init| && 0 <= j < |init| ensures cmp(init[i], init[j]) == 0 {
          assert init[i] == s[i] && init[j] == s[j];
        }
      }
      SortAllTied(init, cmp);
      var last := s[|s| - 1];
      assert Sort(s, cmp) == Insert(init, last, cmp);
      if |init| > 0 {
        assert cmp(init[|init| - 1], last) == 0 by {
          assert init[|init| - 1] == s[|s| - 2];
        }
      }
      assert Insert(init, last, cmp) == init + [last];
      assert init + [last] == s;
    }
  }

  /**
   * Where `Insert` puts `x`: after position `j - 1`, which is not ordered
   * after `x`, and before the elements from `j` on, which all are.
   */
  lemma {:induction false} InsertSplit<T>(t: seq<T>, x: T, cmp: (T, T) -> int, j: nat)
    requires j <= |t|
    requires j == 0 || cmp(t[j - 1], x) <= 0
    requires forall k :: j <= k < |t| ==> cmp(t[k], x) > 0
    ensures Insert(t, x, cmp) == t[..j] + [x] + t[j..]
    decreases |t|
  {
    if j < |t| {
      var init := t[..|t| - 1];
      InsertSplit(init, x, cmp, j);
      assert t[..j] == init[..j];
      assert init[j..] + [t[|t| - 1]] == t[j..];
    } else if t != [] {
      assert t[..j] == t;
    }
  }

  /**
   * One step of the in-place sort: shifts the elements of `a[..i]` that are
   * ordered after `a[i]` one place right and drops `a[i]` into the gap.
   */
  method InsertAt<T>(a: array<T>, i: nat, cmp: (T, T) -> int)
    requires i < a.Length
    modifies a
    ensures a[..i + 1] == Insert(old(a[..i]), old(a[i]), cmp)
    ensures forall k :: i < k < a.Length ==> a[k] == old(a[k])
  {
    ghost var done := a[..i];
    var x := a[i];
    var j := i;
    while j > 0 && cmp(a[j - 1], x) > 0
      invariant 0 <= j <= i
      invariant forall k :: 0 <= k < j ==> a[k] == done[k]
      invariant forall k :: j < k <= i ==> a[k] == done[k - 1]
      invariant forall k :: i < k < a.Length ==> a[k] == old(a[k])
      invariant forall k :: j <= k < i ==> cmp(done[k], x) > 0
    {
      a[j] := a[j - 1];
      j := j - 1;
    }
    a[j] := x;
    InsertSplit(done, x, cmp, j);
    Reassemble(a[..i + 1], done, x, j);
  }

  /** A sequence that agrees with `done` around position `j`, and holds `x` there, is the spliced one. */
  lemma Reassemble<T>(b: seq<T>, done: seq<T>, x: T, j: nat)
    requires j <= |done| && |b| == |done| + 1
    requires forall k :: 0 <= k < j ==> b[k] == done[k]
    requires b[j] == x
    requires forall k :: j < k < |b| ==> b[k] == done[k - 1]
    ensures b == done[..j] + [x] + done[j..]
  {
    var expected := done[..j] + [x] + done[j..];
    assert forall k :: 0 <= k < |b| ==> b[k] == expected[k];
  }

  /** The in-place sort that `rows.sort(comparator)` performs. */
  method SortInPlace<T>(a: array<T>, cmp: (T, T) -> int)
    modifies a
    ensures a[..] == Sort(old(a[..]), cmp)
  {
    ghost var s := a[..];
    var i := 0;
    while i < a.Length
      invariant 0 <= i <= a.Length
      invariant a[..i] == Sort(s[..i], cmp)
      invariant forall k :: i <= k < a.Length ==> a[k] == s[k]
    {
      InsertAt(a, i, cmp);
      assert s[..i + 1][..i] == s[..i];
      i := i + 1;
    }
    assert a[..] == a[..a.Length] && s == s[..a.Length];
  }
}
