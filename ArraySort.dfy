/**
 * `Array.prototype.sort(cmp)` as the table uses it: an in-place sort of an
 * array by a three-way comparator. ECMAScript requires the sort to be stable,
 * so for a comparator that is a total preorder its outcome is determined;
 * `StableSort` (insertion sort on sequences) defines that outcome and
 * `SortInPlace` computes it on the array.
 */
module ArraySort {

  /** `cmp` is antisymmetric and transitive: a consistent comparator. */
  ghost predicate TotalPreorder<T(!new)>(cmp: (T, T) -> int) {
    && (forall a, b :: cmp(a, b) == -cmp(b, a))
    && (forall a, b, c :: cmp(a, b) <= 0 && cmp(b, c) <= 0 ==> cmp(a, c) <= 0)
  }

  /** Every pair of `s` is in `cmp`'s order. */
  ghost predicate Sorted<T>(s: seq<T>, cmp: (T, T) -> int) {
    forall i, j :: 0 <= i < j < |s| ==> cmp(s[i], s[j]) <= 0
  }

  /**
   * Inserts `x` after the last element of `t` that does not compare above it:
   * one step of a stable sort.
   */
  function Insert<T>(t: seq<T>, x: T, cmp: (T, T) -> int): (r: seq<T>)
    ensures |r| == |t| + 1
  {
    if |t| == 0 then [x]
    else if cmp(t[|t| - 1], x) > 0 then Insert(t[..|t| - 1], x, cmp) + [t[|t| - 1]]
    else t + [x]
  }

  /** `s` sorted stably by `cmp`. */
  function StableSort<T>(s: seq<T>, cmp: (T, T) -> int): (r: seq<T>)
    ensures |r| == |s|
  {
    if |s| == 0 then []
    else Insert(StableSort(s[..|s| - 1], cmp), s[|s| - 1], cmp)
  }

  lemma {:induction false} InsertPermutes<T>(t: seq<T>, x: T, cmp: (T, T) -> int)
    ensures multiset(Insert(t, x, cmp)) == multiset(t) + multiset{x}
    decreases |t|
  {
    if |t| > 0 && cmp(t[|t| - 1], x) > 0 {
      InsertPermutes(t[..|t| - 1], x, cmp);
      LastSplit(t);
    }
  }

  /** The sorted sequence is a permutation of the input. */
  lemma {:induction false} StableSortPermutes<T>(s: seq<T>, cmp: (T, T) -> int)
    ensures multiset(StableSort(s, cmp)) == multiset(s)
    decreases |s|
  {
    if |s| > 0 {
      var n := |s| - 1;
      StableSortPermutes(s[..n], cmp);
      InsertPermutes(StableSort(s[..n], cmp), s[n], cmp);
      LastSplit(s);
      calc {
        multiset(StableSort(s, cmp));
        multiset(Insert(StableSort(s[..n], cmp), s[n], cmp));
        multiset(StableSort(s[..n], cmp)) + multiset{s[n]};
        multiset(s[..n]) + multiset{s[n]};
        multiset(s);
      }
    }
  }

  /** Every element of `t` compares at most equal to `y`. */
  ghost predicate AllAtMost<T>(t: seq<T>, y: T, cmp: (T, T) -> int) {
    forall i :: 0 <= i < |t| ==> cmp(t[i], y) <= 0
  }

  lemma SortedAppend<T>(u: seq<T>, y: T, cmp: (T, T) -> int)
    requires Sorted(u, cmp) && AllAtMost(u, y, cmp)
    ensures Sorted(u + [y], cmp)
  {
  }

  lemma {:induction false} InsertAtMost<T>(t: seq<T>, x: T, y: T, cmp: (T, T) -> int)
    requires AllAtMost(t, y, cmp) && cmp(x, y) <= 0
    ensures AllAtMost(Insert(t, x, cmp), y, cmp)
    decreases |t|
  {
    if |t| > 0 && cmp(t[|t| - 1], x) > 0 {
      InsertAtMost(t[..|t| - 1], x, y, cmp);
    }
  }

  /** A sorted sequence is its sorted prefix followed by an element no smaller than the prefix. */
  lemma SortedSplit<T>(t: seq<T>, cmp: (T, T) -> int)
    requires |t| > 0 && Sorted(t, cmp)
    ensures Sorted(t[..|t| - 1], cmp) && AllAtMost(t[..|t| - 1], t[|t| - 1], cmp)
  {
  }

  /** In a sorted sequence, an element at least its last is at least all of it. */
  lemma AboveLast<T(!new)>(t: seq<T>, x: T, cmp: (T, T) -> int)
    requires TotalPreorder(cmp) && Sorted(t, cmp)
    requires |t| > 0 && cmp(t[|t| - 1], x) <= 0
    ensures AllAtMost(t, x, cmp)
  {
    var n := |t| - 1;
    forall i | 0 <= i < |t|
      ensures cmp(t[i], x) <= 0
    {
      if i < n {
        assert cmp(t[i], t[n]) <= 0;
      }
    }
  }

  /** `Insert` past a last element above `x` keeps the order, given that the shorter insertion does. */
  lemma InsertKeepsSortedStep<T>(t: seq<T>, x: T, cmp: (T, T) -> int)
    requires |t| > 0 && cmp(t[|t| - 1], x) > 0 && cmp(x, t[|t| - 1]) <= 0
    requires Sorted(Insert(t[..|t| - 1], x, cmp), cmp)
    requires AllAtMost(t[..|t| - 1], t[|t| - 1], cmp)
    ensures Sorted(Insert(t, x, cmp), cmp)
  {
    var n := |t| - 1;
    InsertAtMost(t[..n], x, t[n], cmp);
    SortedAppend(Insert(t[..n], x, cmp), t[n], cmp);
  }

  /** `Insert` that stops at the end keeps the order when `x` is at least every element. */
  lemma InsertAtEndKeepsSorted<T>(t: seq<T>, x: T, cmp: (T, T) -> int)
    requires |t| > 0 && cmp(t[|t| - 1], x) <= 0
    requires Sorted(t, cmp) && AllAtMost(t, x, cmp)
    ensures Sorted(Insert(t, x, cmp), cmp)
  {
    SortedAppend(t, x, cmp);
  }

  lemma {:induction false} InsertKeepsSorted<T(!new)>(t: seq<T>, x: T, cmp: (T, T) -> int)
    requires TotalPreorder(cmp)
    requires Sorted(t, cmp)
    ensures Sorted(Insert(t, x, cmp), cmp)
    decreases |t|
  {
    if |t| == 0 {
    } else if cmp(t[|t| - 1], x) > 0 {
      var n := |t| - 1;
      SortedSplit(t, cmp);
      InsertKeepsSorted(t[..n], x, cmp);
      assert cmp(x, t[n]) < 0;
      InsertKeepsSortedStep(t, x, cmp);
    } else {
      AboveLast(t, x, cmp);
      InsertAtEndKeepsSorted(t, x, cmp);
    }
  }

  /** With a consistent comparator, the sorted sequence is in its order. */
  lemma {:induction false} StableSortSorted<T(!new)>(s: seq<T>, cmp: (T, T) -> int)
    requires TotalPreorder(cmp)
    ensures Sorted(StableSort(s, cmp), cmp)
    decreases |s|
  {
    if |s| > 0 {
      StableSortSorted(s[..|s| - 1], cmp);
      InsertKeepsSorted(StableSort(s[..|s| - 1], cmp), s[|s| - 1], cmp);
    }
  }

  /** Sorting a sequence that is already in order leaves it as it is. */
  lemma {:induction false} StableSortOfSorted<T>(s: seq<T>, cmp: (T, T) -> int)
    requires Sorted(s, cmp)
    ensures StableSort(s, cmp) == s
    decreases |s|
  {
    if |s| > 0 {
      var n := |s| - 1;
      assert Sorted(s[..n], cmp);
      StableSortOfSorted(s[..n], cmp);
      LastSplit(s);
    }
  }

  /** Two sorted permutations of each other start with the same element or with two that `cmp` ranks equal. */
  lemma SortedHeadsTie<T>(s: seq<T>, t: seq<T>, cmp: (T, T) -> int)
    requires multiset(s) == multiset(t) && |s| > 0
    requires Sorted(s, cmp) && Sorted(t, cmp)
    ensures |t| > 0 && (s[0] == t[0] || (cmp(s[0], t[0]) <= 0 && cmp(t[0], s[0]) <= 0))
  {
    assert |t| == |multiset(t)| == |multiset(s)| == |s|;
    assert s[0] in multiset(t) && t[0] in multiset(s);
    var i :| 0 <= i < |t| && t[i] == s[0];
    var j :| 0 <= j < |s| && s[j] == t[0];
    if i > 0 && j > 0 {
      assert cmp(t[0], t[i]) <= 0;
      assert cmp(s[0], s[j]) <= 0;
    }
  }

  /** A non-empty sequence is its first element followed by the rest. */
  lemma HeadSplit<T>(t: seq<T>)
    requires |t| > 0
    ensures [t[0]] + t[1..] == t
  {
  }

  lemma TailsPermute<T>(s: seq<T>, t: seq<T>)
    requires multiset(s) == multiset(t) && |s| > 0 && |t| > 0 && s[0] == t[0]
    ensures multiset(s[1..]) == multiset(t[1..])
  {
    HeadSplit(s);
    HeadSplit(t);
    assert multiset(s) == multiset([s[0]]) + multiset(s[1..]);
    assert multiset(t) == multiset([s[0]]) + multiset(t[1..]);
    assert multiset(s[1..]) == multiset(s) - multiset([s[0]]);
    assert multiset(t[1..]) == multiset(t) - multiset([s[0]]);
  }

  /**
   * Two sorted permutations of each other are equal when `cmp` ranks no two
   * different elements equal.
   */
  lemma {:induction false} SortedUnique<T>(s: seq<T>, t: seq<T>, cmp: (T, T) -> int)
    requires multiset(s) == multiset(t)
    requires Sorted(s, cmp) && Sorted(t, cmp)
    requires forall x, y :: x in s && y in s && cmp(x, y) <= 0 && cmp(y, x) <= 0 ==> x == y
    ensures s == t
    decreases |s|
  {
    if |s| == 0 {
      assert |t| == |multiset(t)| == 0;
    } else {
      SortedHeadsTie(s, t, cmp);
      assert t[0] in multiset(s);
      assert s[0] == t[0];
      TailsPermute(s, t);
      SortedUnique(s[1..], t[1..], cmp);
      HeadSplit(s);
      HeadSplit(t);
    }
  }

  /** The elements of `s` that `cmp` ranks equal to `p`, in their order in `s`. */
  function Ties<T>(s: seq<T>, p: T, cmp: (T, T) -> int): (r: seq<T>)
    ensures |r| <= |s|
  {
    if |s| == 0 then []
    else Ties(s[..|s| - 1], p, cmp) + (if cmp(s[|s| - 1], p) == 0 then [s[|s| - 1]] else [])
  }

  lemma {:induction false} TiesAppend<T>(s: seq<T>, t: seq<T>, p: T, cmp: (T, T) -> int)
    ensures Ties(s + t, p, cmp) == Ties(s, p, cmp) + Ties(t, p, cmp)
    decreases |t|
  {
    if |t| == 0 {
      assert s + t == s;
    } else {
      var n := |t| - 1;
      assert (s + t)[..|s + t| - 1] == s + t[..n];
      TiesAppend(s, t[..n], p, cmp);
    }
  }

  /** Two elements that `cmp` tells apart are not both tied with the same `p`. */
  lemma NotBothTied<T(!new)>(y: T, x: T, p: T, cmp: (T, T) -> int)
    requires TotalPreorder(cmp) && cmp(y, x) > 0
    ensures !(cmp(y, p) == 0 && cmp(x, p) == 0)
  {
    assert cmp(y, p) <= 0 && cmp(p, x) <= 0 ==> cmp(y, x) <= 0;
  }

  lemma TiesOfOne<T>(y: T, p: T, cmp: (T, T) -> int)
    ensures Ties([y], p, cmp) == if cmp(y, p) == 0 then [y] else []
  {
    assert [y][..0] == [];
  }

  /** A non-empty sequence is its prefix followed by its last element. */
  lemma LastSplit<T>(t: seq<T>)
    requires |t| > 0
    ensures t[..|t| - 1] + [t[|t| - 1]] == t
  {
  }

  /** Two adjacent pieces of which one is empty can change places. */
  lemma SwapEmpty<T>(a: seq<T>, b: seq<T>, c: seq<T>)
    requires b == [] || c == []
    ensures a + b + c == a + c + b
  {
    if b == [] {
      assert a + b == a && a + c + b == a + c;
    } else {
      assert a + b + c == a + b && a + c == a;
    }
  }

  /** Two elements that are not both tied with `p` can change places without changing the ties at `p`. */
  lemma TiesSwap<T>(a: seq<T>, x: T, y: T, p: T, cmp: (T, T) -> int)
    requires !(cmp(y, p) == 0 && cmp(x, p) == 0)
    ensures Ties(a + [x], p, cmp) + Ties([y], p, cmp) == Ties(a + [y], p, cmp) + Ties([x], p, cmp)
  {
    TiesAppend(a, [x], p, cmp);
    TiesAppend(a, [y], p, cmp);
    TiesOfOne(x, p, cmp);
    TiesOfOne(y, p, cmp);
    SwapEmpty(Ties(a, p, cmp), Ties([x], p, cmp), Ties([y], p, cmp));
  }

  /**
   * One step of `Insert` past a last element `t[n]` that is not tied with `x`
   * at `p` keeps the ties at `p` in order, given that the shorter insertion does.
   */
  lemma InsertStableStep<T>(t: seq<T>, x: T, p: T, cmp: (T, T) -> int)
    requires |t| > 0 && cmp(t[|t| - 1], x) > 0
    requires Ties(Insert(t[..|t| - 1], x, cmp), p, cmp) == Ties(t[..|t| - 1] + [x], p, cmp)
    requires !(cmp(t[|t| - 1], p) == 0 && cmp(x, p) == 0)
    ensures Ties(Insert(t, x, cmp), p, cmp) == Ties(t + [x], p, cmp)
  {
    var n := |t| - 1;
    var u := Insert(t[..n], x, cmp);
    assert Insert(t, x, cmp) == u + [t[n]];
    TiesAppend(u, [t[n]], p, cmp);
    TiesSwap(t[..n], x, t[n], p, cmp);
    LastSplit(t);
    TiesAppend(t, [x], p, cmp);
  }

  lemma {:induction false} InsertStable<T(!new)>(t: seq<T>, x: T, p: T, cmp: (T, T) -> int)
    requires TotalPreorder(cmp)
    ensures Ties(Insert(t, x, cmp), p, cmp) == Ties(t + [x], p, cmp)
    decreases |t|
  {
    if |t| > 0 && cmp(t[|t| - 1], x) > 0 {
      var n := |t| - 1;
      InsertStable(t[..n], x, p, cmp);
      NotBothTied(t[n], x, p, cmp);
      InsertStableStep(t, x, p, cmp);
    }
  }

  /**
   * Stability: the elements that `cmp` ranks equal to any `p` keep, after
   * sorting, the relative order they had in the input.
   */
  lemma {:induction false} StableSortStable<T(!new)>(s: seq<T>, p: T, cmp: (T, T) -> int)
    requires TotalPreorder(cmp)
    ensures Ties(StableSort(s, cmp), p, cmp) == Ties(s, p, cmp)
    decreases |s|
  {
    if |s| > 0 {
      var n := |s| - 1;
      var r := StableSort(s[..n], cmp);
      calc {
        Ties(StableSort(s, cmp), p, cmp);
        Ties(Insert(r, s[n], cmp), p, cmp);
        { InsertStable(r, s[n], p, cmp); }
        Ties(r + [s[n]], p, cmp);
        { TiesAppend(r, [s[n]], p, cmp); }
        Ties(r, p, cmp) + Ties([s[n]], p, cmp);
        { StableSortStable(s[..n], p, cmp); }
        Ties(s[..n], p, cmp) + Ties([s[n]], p, cmp);
        { TiesAppend(s[..n], [s[n]], p, cmp); LastSplit(s); }
        Ties(s, p, cmp);
      }
    }
  }

  /** `Insert` moves `x` past a suffix of `t` whose elements all compare above it. */
  lemma {:induction false} InsertPastAbove<T>(t: seq<T>, x: T, cmp: (T, T) -> int, j: nat)
    requires j <= |t|
    requires forall k :: j <= k < |t| ==> cmp(t[k], x) > 0
    ensures Insert(t, x, cmp) == Insert(t[..j], x, cmp) + t[j..]
    decreases |t|
  {
    if j == |t| {
      assert t[..j] == t && t[j..] == [];
    } else {
      var n := |t| - 1;
      InsertPastAbove(t[..n], x, cmp, j);
      assert t[..n][..j] == t[..j];
      assert t[j..] == t[..n][j..] + [t[n]];
    }
  }

  /** The insertion loop stops where `x` belongs. */
  lemma InsertStop<T>(t: seq<T>, x: T, cmp: (T, T) -> int, j: nat)
    requires j <= |t| && (j == 0 || cmp(t[j - 1], x) <= 0)
    ensures Insert(t[..j], x, cmp) == t[..j] + [x]
  {
  }

  lemma StableSortPrefix<T>(s: seq<T>, i: nat, cmp: (T, T) -> int)
    requires i < |s|
    ensures StableSort(s[..i + 1], cmp) == Insert(StableSort(s[..i], cmp), s[i], cmp)
  {
    assert s[..i + 1][..i] == s[..i];
  }

  /** The array prefix after the insertion loop, read element by element. */
  lemma Assemble<T>(b: seq<T>, t: seq<T>, x: T, j: nat)
    requires j <= |t| && |b| == |t| + 1
    requires forall k :: 0 <= k < j ==> b[k] == t[k]
    requires b[j] == x
    requires forall k :: j < k < |b| ==> b[k] == t[k - 1]
    ensures b == t[..j] + [x] + t[j..]
  {
  }

  /**
   * Moves `a[i]` left into the sorted prefix `a[..i]`, past every element that
   * compares above it.
   */
  method InsertInPlace<T>(a: array<T>, i: nat, cmp: (T, T) -> int)
    requires i < a.Length
    modifies a
    ensures a[..i + 1] == Insert(old(a[..i]), old(a[i]), cmp)
    ensures forall k {:trigger a[k]} :: i < k < a.Length ==> a[k] == old(a[k])
  {
    var x := a[i];
    ghost var t := a[..i];
    var j := i;
    while j > 0 && cmp(a[j - 1], x) > 0
      invariant 0 <= j <= i
      invariant forall k {:trigger a[k]} :: 0 <= k < j ==> a[k] == t[k]
      invariant forall k {:trigger a[k]} :: j < k <= i ==> a[k] == t[k - 1]
      invariant forall k {:trigger a[k]} :: i < k < a.Length ==> a[k] == old(a[k])
      invariant forall k :: j <= k < i ==> cmp(t[k], x) > 0
    {
      a[j] := a[j - 1];
      j := j - 1;
    }
    InsertPastAbove(t, x, cmp, j);
    InsertStop(t, x, cmp, j);
    a[j] := x;
    Assemble(a[..i + 1], t, x, j);
  }

  /** Equal sequences with equal last pieces agree before them. */
  lemma CancelSuffix<T>(a: seq<T>, b: seq<T>, e: seq<T>)
    requires a + e == b + e
    ensures a == b
  {
    assert a == (a + e)[..|a|];
    assert b == (b + e)[..|b|];
  }

  /** Under a consistent comparator every element ties with itself. */
  lemma TiesItself<T(!new)>(x: T, cmp: (T, T) -> int)
    requires TotalPreorder(cmp)
    ensures cmp(x, x) == 0
  {
    assert cmp(x, x) == -cmp(x, x);
  }

  /** The last elements of two sorted permutations of each other tie. */
  lemma LastsTie<T(!new)>(t: seq<T>, u: seq<T>, cmp: (T, T) -> int)
    requires TotalPreorder(cmp)
    requires multiset(t) == multiset(u) && |t| == |u| > 0
    requires Sorted(t, cmp) && Sorted(u, cmp)
    ensures cmp(t[|t| - 1], u[|u| - 1]) == 0
  {
    var n := |t| - 1;
    assert u[n] in multiset(t) && t[n] in multiset(u);
    var i :| 0 <= i < |t| && t[i] == u[n];
    var j :| 0 <= j < |u| && u[j] == t[n];
    TiesItself(t[n], cmp);
    TiesItself(u[n], cmp);
    if i < n {
      assert cmp(t[i], t[n]) <= 0;
    }
    if j < n {
      assert cmp(u[j], u[n]) <= 0;
    }
    assert cmp(u[n], t[n]) <= 0 && cmp(t[n], u[n]) <= 0;
  }

  /** Two sequences whose ties at their common last element agree end in the same element. */
  lemma LastsEqual<T(!new)>(t: seq<T>, u: seq<T>, cmp: (T, T) -> int)
    requires TotalPreorder(cmp)
    requires |t| == |u| > 0 && cmp(u[|u| - 1], t[|t| - 1]) == 0
    requires Ties(t, t[|t| - 1], cmp) == Ties(u, t[|t| - 1], cmp)
    ensures t[|t| - 1] == u[|u| - 1]
  {
    var n := |t| - 1;
    TiesItself(t[n], cmp);
    assert Ties(t, t[n], cmp) == Ties(t[..n], t[n], cmp) + [t[n]];
    assert Ties(u, t[n], cmp) == Ties(u[..n], t[n], cmp) + [u[n]];
  }

  /** Dropping an equal last element keeps equal ties equal. */
  lemma PrefixTies<T>(t: seq<T>, u: seq<T>, p: T, cmp: (T, T) -> int)
    requires |t| == |u| > 0 && t[|t| - 1] == u[|u| - 1]
    requires Ties(t, p, cmp) == Ties(u, p, cmp)
    ensures Ties(t[..|t| - 1], p, cmp) == Ties(u[..|u| - 1], p, cmp)
  {
    var n := |t| - 1;
    var e := if cmp(t[n], p) == 0 then [t[n]] else [];
    CancelSuffix(Ties(t[..n], p, cmp), Ties(u[..n], p, cmp), e);
  }

  /** Dropping an equal last element keeps a permutation a permutation. */
  lemma PrefixPermutes<T>(t: seq<T>, u: seq<T>)
    requires multiset(t) == multiset(u) && |t| == |u| > 0 && t[|t| - 1] == u[|u| - 1]
    ensures multiset(t[..|t| - 1]) == multiset(u[..|u| - 1])
  {
    var n := |t| - 1;
    LastSplit(t);
    LastSplit(u);
    assert multiset(t) == multiset(t[..n]) + multiset([t[n]]);
    assert multiset(u) == multiset(u[..n]) + multiset([t[n]]);
    assert multiset(t[..n]) == multiset(t) - multiset([t[n]]);
    assert multiset(u[..n]) == multiset(u) - multiset([t[n]]);
  }

  /**
   * Two sorted permutations of each other whose ties at every element agree
   * are equal.
   */
  lemma {:induction false} SortedSameTiesUnique<T(!new)>(t: seq<T>, u: seq<T>, cmp: (T, T) -> int)
    requires TotalPreorder(cmp)
    requires multiset(t) == multiset(u)
    requires Sorted(t, cmp) && Sorted(u, cmp)
    requires forall p :: Ties(t, p, cmp) == Ties(u, p, cmp)
    ensures t == u
    decreases |t|
  {
    assert |t| == |multiset(t)| == |multiset(u)| == |u|;
    if |t| > 0 {
      var n := |t| - 1;
      LastsTie(t, u, cmp);
      assert cmp(u[n], t[n]) == 0;
      LastsEqual(t, u, cmp);
      PrefixPermutes(t, u);
      SortedSplit(t, cmp);
      SortedSplit(u, cmp);
      forall p
        ensures Ties(t[..n], p, cmp) == Ties(u[..n], p, cmp)
      {
        PrefixTies(t, u, p, cmp);
      }
      SortedSameTiesUnique(t[..n], u[..n], cmp);
      LastSplit(t);
      LastSplit(u);
    }
  }

  /**
   * The outcome of a stable sort is unique: any sorted permutation of `s` that
   * keeps the elements tied with each `p` in their order in `s` is `StableSort(s)`.
   */
  lemma StableSortUnique<T(!new)>(s: seq<T>, t: seq<T>, cmp: (T, T) -> int)
    requires TotalPreorder(cmp)
    requires multiset(t) == multiset(s) && Sorted(t, cmp)
    requires forall p :: Ties(t, p, cmp) == Ties(s, p, cmp)
    ensures t == StableSort(s, cmp)
  {
    var u := StableSort(s, cmp);
    StableSortPermutes(s, cmp);
    StableSortSorted(s, cmp);
    forall p
      ensures Ties(t, p, cmp) == Ties(u, p, cmp)
    {
      StableSortStable(s, p, cmp);
    }
    SortedSameTiesUnique(t, u, cmp);
  }

  /** `a.sort(cmp)`: sorts `a` in place, stably. */
  method SortInPlace<T>(a: array<T>, cmp: (T, T) -> int)
    modifies a
    ensures a[..] == StableSort(old(a[..]), cmp)
  {
    ghost var s := a[..];
    var i := 0;
    while i < a.Length
      invariant 0 <= i <= a.Length
      invariant a[..i] == StableSort(s[..i], cmp)
      invariant forall k {:trigger a[k]} :: i <= k < a.Length ==> a[k] == s[k]
    {
      InsertInPlace(a, i, cmp);
      StableSortPrefix(s, i, cmp);
      i := i + 1;
    }
    assert a[..] == a[..a.Length] && s[..a.Length] == s;
  }
}
