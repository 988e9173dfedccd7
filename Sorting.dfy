/**
 * The comparators of the currency table: `descendingComparator`, the
 * three-way comparison of two rows on one field, and `getComparator`, which
 * keeps it for `'desc'` and negates it for `'asc'`.
 */
module Sorting {
  import opened Ticker
  import opened ArraySort

  datatype Order = Asc | Desc

  function Flip(o: Order): (r: Order)
    ensures r != o
  {
    if o == Asc then Desc else Asc
  }

  /** The three-way comparison of two rows on one field, larger key first. */
  function DescendingComparator(a: CurrencyDetail, b: CurrencyDetail, sortBy: Field): (r: int)
    ensures -1 <= r <= 1
  {
    if KeyLess(Get(b, sortBy), Get(a, sortBy)) then -1
    else if KeyLess(Get(a, sortBy), Get(b, sortBy)) then 1
    else 0
  }

  /** The comparator for a direction: the descending one for `'desc'`, its negation for `'asc'`. */
  function GetComparator(sort: Order, sortedBy: Field): (cmp: (CurrencyDetail, CurrencyDetail) -> int)
    ensures forall a, b :: -1 <= cmp(a, b) <= 1
  {
    if sort == Desc then (a, b) => DescendingComparator(a, b, sortedBy)
    else (a, b) => -DescendingComparator(a, b, sortedBy)
  }

  /**
   * The descending comparator is -1 when `a`'s key is the larger, 1 when it
   * is the smaller, and 0 exactly when the two keys are equal.
   */
  lemma DescendingComparatorMeaning(a: CurrencyDetail, b: CurrencyDetail, sortBy: Field)
    ensures DescendingComparator(a, b, sortBy) == -1 <==> KeyLess(Get(b, sortBy), Get(a, sortBy))
    ensures DescendingComparator(a, b, sortBy) == 1 <==> KeyLess(Get(a, sortBy), Get(b, sortBy))
    ensures DescendingComparator(a, b, sortBy) == 0 <==> Get(a, sortBy) == Get(b, sortBy)
  {
    KeyLessAsymmetric(Get(a, sortBy), Get(b, sortBy));
    KeyLessTrichotomy(Get(a, sortBy), Get(b, sortBy));
  }

  /** `x` strictly comes before `y` in direction `sort`. */
  predicate Precedes(sort: Order, x: Key, y: Key) {
    if sort == Asc then KeyLess(x, y) else KeyLess(y, x)
  }

  /**
   * The comparator is negative exactly when `a`'s key comes first in the
   * requested direction, and zero exactly when the keys are equal.
   */
  lemma GetComparatorMeaning(sort: Order, sortedBy: Field, a: CurrencyDetail, b: CurrencyDetail)
    ensures GetComparator(sort, sortedBy)(a, b) < 0 <==> Precedes(sort, Get(a, sortedBy), Get(b, sortedBy))
    ensures GetComparator(sort, sortedBy)(a, b) == 0 <==> Get(a, sortedBy) == Get(b, sortedBy)
    ensures GetComparator(sort, sortedBy)(a, b) > 0 <==> Precedes(sort, Get(b, sortedBy), Get(a, sortedBy))
  {
    DescendingComparatorMeaning(a, b, sortedBy);
  }

  /** The `'asc'` comparator is the negation of the `'desc'` one. */
  lemma AscendingNegatesDescending(sortedBy: Field, a: CurrencyDetail, b: CurrencyDetail)
    ensures GetComparator(Asc, sortedBy)(a, b) == -GetComparator(Desc, sortedBy)(a, b)
  {
  }

  lemma GetComparatorAntisymmetric(sort: Order, sortedBy: Field, a: CurrencyDetail, b: CurrencyDetail)
    ensures GetComparator(sort, sortedBy)(a, b) == -GetComparator(sort, sortedBy)(b, a)
  {
    KeyLessAsymmetric(Get(a, sortedBy), Get(b, sortedBy));
  }

  lemma GetComparatorTransitive(sort: Order, sortedBy: Field, a: CurrencyDetail, b: CurrencyDetail, c: CurrencyDetail)
    requires GetComparator(sort, sortedBy)(a, b) <= 0 && GetComparator(sort, sortedBy)(b, c) <= 0
    ensures GetComparator(sort, sortedBy)(a, c) <= 0
  {
    var x, y, z := Get(a, sortedBy), Get(b, sortedBy), Get(c, sortedBy);
    GetComparatorMeaning(sort, sortedBy, a, b);
    GetComparatorMeaning(sort, sortedBy, b, c);
    GetComparatorMeaning(sort, sortedBy, a, c);
    KeyLessAsymmetric(x, z);
    KeyLessTrichotomy(x, z);
    if KeyLess(x, y) && KeyLess(y, z) { KeyLessTransitive(x, y, z); }
    if KeyLess(y, x) && KeyLess(z, y) { KeyLessTransitive(z, y, x); }
  }

  /** Both comparators are consistent, so sorting with them is well defined. */
  lemma GetComparatorTotalPreorder(sort: Order, sortedBy: Field)
    ensures TotalPreorder(GetComparator(sort, sortedBy))
  {
    var cmp := GetComparator(sort, sortedBy);
    forall a, b
      ensures cmp(a, b) == -cmp(b, a)
    {
      GetComparatorAntisymmetric(sort, sortedBy, a, b);
    }
    forall a, b, c | cmp(a, b) <= 0 && cmp(b, c) <= 0
      ensures cmp(a, c) <= 0
    {
      GetComparatorTransitive(sort, sortedBy, a, b, c);
    }
  }

  /** Keys never go down along `s`. */
  ghost predicate NonDecreasing(s: seq<CurrencyDetail>, f: Field) {
    forall i, j :: 0 <= i < j < |s| ==> !KeyLess(Get(s[j], f), Get(s[i], f))
  }

  /** Keys never go up along `s`. */
  ghost predicate NonIncreasing(s: seq<CurrencyDetail>, f: Field) {
    forall i, j :: 0 <= i < j < |s| ==> !KeyLess(Get(s[i], f), Get(s[j], f))
  }

  /** In `'asc'` order means keys non-decreasing; in `'desc'` order, non-increasing. */
  lemma SortedMeaning(s: seq<CurrencyDetail>, sort: Order, sortedBy: Field)
    ensures sort == Asc ==> (Sorted(s, GetComparator(sort, sortedBy)) <==> NonDecreasing(s, sortedBy))
    ensures sort == Desc ==> (Sorted(s, GetComparator(sort, sortedBy)) <==> NonIncreasing(s, sortedBy))
  {
    forall i, j | 0 <= i < j < |s| {
      GetComparatorMeaning(sort, sortedBy, s[i], s[j]);
    }
  }

  /** The rows of `s` whose `f` is `k`, in their order in `s`. */
  function WithKey(s: seq<CurrencyDetail>, f: Field, k: Key): (r: seq<CurrencyDetail>)
    ensures |r| <= |s|
  {
    if |s| == 0 then []
    else WithKey(s[..|s| - 1], f, k) + (if Get(s[|s| - 1], f) == k then [s[|s| - 1]] else [])
  }

  /** The rows the comparator ties with `p` are the rows sharing `p`'s key. */
  lemma {:induction false} TiesHaveSameKey(s: seq<CurrencyDetail>, p: CurrencyDetail, sort: Order, sortedBy: Field)
    ensures Ties(s, p, GetComparator(sort, sortedBy)) == WithKey(s, sortedBy, Get(p, sortedBy))
    decreases |s|
  {
    if |s| > 0 {
      TiesHaveSameKey(s[..|s| - 1], p, sort, sortedBy);
      GetComparatorMeaning(sort, sortedBy, s[|s| - 1], p);
    }
  }

  /** A row whose field `f` holds `k` (and whose other fields are arbitrary). */
  function RowWith(f: Field, k: Key): (d: CurrencyDetail)
    requires k.Text? <==> f == Symbol
    ensures Get(d, f) == k
  {
    match f
    case Symbol => CurrencyDetail(k.s, 0.0, 0.0, 0.0, 0.0, 0.0, 0.0, 0.0)
    case Bid => CurrencyDetail("", k.n, 0.0, 0.0, 0.0, 0.0, 0.0, 0.0)
    case Ask => CurrencyDetail("", 0.0, k.n, 0.0, 0.0, 0.0, 0.0, 0.0)
    case Last => CurrencyDetail("", 0.0, 0.0, k.n, 0.0, 0.0, 0.0, 0.0)
    case DailyHigh => CurrencyDetail("", 0.0, 0.0, 0.0, k.n, 0.0, 0.0, 0.0)
    case DailyLow => CurrencyDetail("", 0.0, 0.0, 0.0, 0.0, k.n, 0.0, 0.0)
    case DailyVolume => CurrencyDetail("", 0.0, 0.0, 0.0, 0.0, 0.0, k.n, 0.0)
    case DailyChangePercent => CurrencyDetail("", 0.0, 0.0, 0.0, 0.0, 0.0, 0.0, k.n)
  }

  /**
   * What the table's sort of a copy of the fetched rows produces: a permutation of `s`, with keys non-decreasing for `'asc'` and
   * non-increasing for `'desc'`, in which rows with equal keys keep the order
   * they had in `s`.
   */
  lemma SortByField(s: seq<CurrencyDetail>, sort: Order, sortedBy: Field)
    ensures multiset(StableSort(s, GetComparator(sort, sortedBy))) == multiset(s)
    ensures sort == Asc ==> NonDecreasing(StableSort(s, GetComparator(sort, sortedBy)), sortedBy)
    ensures sort == Desc ==> NonIncreasing(StableSort(s, GetComparator(sort, sortedBy)), sortedBy)
    ensures forall k: Key | k.Text? <==> sortedBy == Symbol ::
              WithKey(StableSort(s, GetComparator(sort, sortedBy)), sortedBy, k) == WithKey(s, sortedBy, k)
  {
    var cmp := GetComparator(sort, sortedBy);
    var r := StableSort(s, cmp);
    GetComparatorTotalPreorder(sort, sortedBy);
    StableSortPermutes(s, cmp);
    StableSortSorted(s, cmp);
    SortedMeaning(r, sort, sortedBy);
    forall k: Key | k.Text? <==> sortedBy == Symbol
      ensures WithKey(r, sortedBy, k) == WithKey(s, sortedBy, k)
    {
      var p := RowWith(sortedBy, k);
      StableSortStable(s, p, cmp);
      TiesHaveSameKey(r, p, sort, sortedBy);
      TiesHaveSameKey(s, p, sort, sortedBy);
    }
  }

  /** Sorting a list already in the requested order leaves it unchanged. */
  lemma SortBySortedIsIdentity(s: seq<CurrencyDetail>, sort: Order, sortedBy: Field)
    requires sort == Asc ==> NonDecreasing(s, sortedBy)
    requires sort == Desc ==> NonIncreasing(s, sortedBy)
    ensures StableSort(s, GetComparator(sort, sortedBy)) == s
  {
    SortedMeaning(s, sort, sortedBy);
    StableSortOfSorted(s, GetComparator(sort, sortedBy));
  }

  /** `s` back to front. */
  function Reversed<T>(s: seq<T>): (r: seq<T>)
    ensures |r| == |s|
    ensures forall i :: 0 <= i < |s| ==> r[i] == s[|s| - 1 - i]
  {
    if |s| == 0 then [] else [s[|s| - 1]] + Reversed(s[..|s| - 1])
  }

  lemma {:induction false} ReversedPermutes<T>(s: seq<T>)
    ensures multiset(Reversed(s)) == multiset(s)
    decreases |s|
  {
    if |s| > 0 {
      var n := |s| - 1;
      ReversedPermutes(s[..n]);
      LastSplit(s);
    }
  }

  /** Sorting by either comparator yields a sequence in that comparator's order. */
  lemma SortByFieldIsSorted(s: seq<CurrencyDetail>, sort: Order, sortedBy: Field)
    ensures Sorted(StableSort(s, GetComparator(sort, sortedBy)), GetComparator(sort, sortedBy))
  {
    GetComparatorTotalPreorder(sort, sortedBy);
    StableSortSorted(s, GetComparator(sort, sortedBy));
  }

  /** A sequence in `'asc'` order, read back to front, is in `'desc'` order. */
  lemma ReversedAscendingIsDescending(up: seq<CurrencyDetail>, sortedBy: Field)
    requires Sorted(up, GetComparator(Asc, sortedBy))
    ensures Sorted(Reversed(up), GetComparator(Desc, sortedBy))
  {
    var rev := Reversed(up);
    forall i, j | 0 <= i < j < |rev|
      ensures GetComparator(Desc, sortedBy)(rev[i], rev[j]) <= 0
    {
      assert GetComparator(Asc, sortedBy)(up[|up| - 1 - j], up[|up| - 1 - i]) <= 0;
      AscendingNegatesDescending(sortedBy, rev[j], rev[i]);
      GetComparatorAntisymmetric(Desc, sortedBy, rev[j], rev[i]);
    }
  }

  /** Rows with distinct keys are never ranked equal by the comparator. */
  lemma DistinctKeysRankApart(t: seq<CurrencyDetail>, sort: Order, sortedBy: Field)
    requires forall x, y :: x in t && y in t && Get(x, sortedBy) == Get(y, sortedBy) ==> x == y
    ensures forall x, y ::
              (x in t && y in t && GetComparator(sort, sortedBy)(x, y) <= 0 && GetComparator(sort, sortedBy)(y, x) <= 0)
              ==> x == y
  {
    forall x, y | x in t && y in t && GetComparator(sort, sortedBy)(x, y) <= 0
                  && GetComparator(sort, sortedBy)(y, x) <= 0
      ensures x == y
    {
      GetComparatorAntisymmetric(sort, sortedBy, x, y);
      GetComparatorMeaning(sort, sortedBy, x, y);
    }
  }

  /** Distinct keys survive a permutation. */
  lemma DistinctKeysPermuted(s: seq<CurrencyDetail>, t: seq<CurrencyDetail>, sortedBy: Field)
    requires multiset(t) == multiset(s)
    requires forall x, y :: x in s && y in s && Get(x, sortedBy) == Get(y, sortedBy) ==> x == y
    ensures forall x, y :: x in t && y in t && Get(x, sortedBy) == Get(y, sortedBy) ==> x == y
  {
    forall x, y | x in t && y in t && Get(x, sortedBy) == Get(y, sortedBy)
      ensures x == y
    {
      assert x in multiset(t) && y in multiset(t);
    }
  }

  /** Both orders put the same rows in play: the `'desc'` result and the reversed `'asc'` result. */
  lemma BothOrdersPermute(s: seq<CurrencyDetail>, sortedBy: Field)
    ensures multiset(StableSort(s, GetComparator(Desc, sortedBy)))
         == multiset(Reversed(StableSort(s, GetComparator(Asc, sortedBy))))
    ensures multiset(StableSort(s, GetComparator(Desc, sortedBy))) == multiset(s)
  {
    StableSortPermutes(s, GetComparator(Asc, sortedBy));
    StableSortPermutes(s, GetComparator(Desc, sortedBy));
    ReversedPermutes(StableSort(s, GetComparator(Asc, sortedBy)));
  }

  /**
   * When rows with equal keys are equal rows (no two different rows share a
   * value of `sortedBy`), sorting `'desc'` gives exactly the reverse of sorting
   * `'asc'`.
   */
  lemma DescendingIsReversedAscending(s: seq<CurrencyDetail>, sortedBy: Field)
    requires forall x, y :: x in s && y in s && Get(x, sortedBy) == Get(y, sortedBy) ==> x == y
    ensures StableSort(s, GetComparator(Desc, sortedBy)) == Reversed(StableSort(s, GetComparator(Asc, sortedBy)))
  {
    var up := StableSort(s, GetComparator(Asc, sortedBy));
    var down := StableSort(s, GetComparator(Desc, sortedBy));
    BothOrdersPermute(s, sortedBy);
    SortByFieldIsSorted(s, Asc, sortedBy);
    SortByFieldIsSorted(s, Desc, sortedBy);
    ReversedAscendingIsDescending(up, sortedBy);
    DistinctKeysPermuted(s, down, sortedBy);
    DistinctKeysRankApart(down, Desc, sortedBy);
    SortedUnique(down, Reversed(up), GetComparator(Desc, sortedBy));
  }
}
