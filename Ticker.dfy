/**
 * The row entity of the currency table and the ordering of its field values.
 *
 * `CurrencyDetail` is the record the feed client produces and the table
 * displays. The table's column accessors name its eight fields by string; here
 * they are the `Field` enumeration, and reading a field yields a `Key`: a
 * number or a string, compared as JavaScript's `<` compares two numbers or two
 * strings.
 */
module Ticker {

  datatype CurrencyDetail = CurrencyDetail(
    symbol: string,
    bid: real,
    ask: real,
    last: real,
    dailyHigh: real,
    dailyLow: real,
    dailyVolume: real,
    dailyChangePercent: real)

  /** The accessor keys of the table's columns. */
  datatype Field =
    | Symbol | Bid | Ask | Last | DailyHigh | DailyChangePercent | DailyLow | DailyVolume

  /** The columns of the table, in display order. */
  const Columns: seq<Field> :=
    [Symbol, Bid, Ask, Last, DailyHigh, DailyChangePercent, DailyLow, DailyVolume]

  /** The value of one field: numbers are exact reals, the symbol is a string. */
  datatype Key = Num(n: real) | Text(s: string)

  /** The value of field `f` of a row: the symbol is the only string-valued field. */
  function Get(d: CurrencyDetail, f: Field): (k: Key)
    ensures k.Text? <==> f == Symbol
  {
    match f
    case Symbol => Text(d.symbol)
    case Bid => Num(d.bid)
    case Ask => Num(d.ask)
    case Last => Num(d.last)
    case DailyHigh => Num(d.dailyHigh)
    case DailyChangePercent => Num(d.dailyChangePercent)
    case DailyLow => Num(d.dailyLow)
    case DailyVolume => Num(d.dailyVolume)
  }

  /** Every field is the accessor of exactly one column. */
  lemma ColumnsListEachFieldOnce(f: Field)
    ensures f in Columns
    ensures forall i, j :: 0 <= i < j < |Columns| ==> Columns[i] != Columns[j]
  {
  }

  /**
   * JavaScript's `<` on two strings: `a` is a proper prefix of `b`, or the
   * first character where they differ is smaller in `a`.
   */
  predicate LexLess(a: string, b: string)
    ensures LexLess(a, b) ==> a != b
    decreases |a|
  {
    if |a| == 0 then |b| > 0
    else |b| > 0 && (a[0] < b[0] || (a[0] == b[0] && LexLess(a[1..], b[1..])))
  }

  /** `a` is a proper prefix of `b` exactly when their heads agree and the tails are so. */
  lemma PrefixStep(a: string, b: string)
    requires |a| > 0 && |b| > 0
    ensures (|a| < |b| && a == b[..|a|]) <==>
              (a[0] == b[0] && |a[1..]| < |b[1..]| && a[1..] == b[1..][..|a[1..]|])
  {
    if a[0] == b[0] && |a[1..]| < |b[1..]| && a[1..] == b[1..][..|a[1..]|] {
      assert a == [a[0]] + a[1..];
      assert b[..|a|] == [b[0]] + b[1..][..|a[1..]|];
    }
    if |a| < |b| && a == b[..|a|] {
      assert a[0] == b[0];
      assert a[1..] == b[1..][..|a[1..]|];
    }
  }

  /** `a` is below `b` at their first difference exactly when it is so at the head, or the heads agree and it is so in the tails. */
  lemma FirstDifferenceStep(a: string, b: string)
    requires |a| > 0 && |b| > 0
    ensures (exists k :: 0 <= k < |a| && k < |b| && a[..k] == b[..k] && a[k] < b[k]) <==>
              (a[0] < b[0] ||
               (a[0] == b[0] &&
                exists k :: 0 <= k < |a[1..]| && k < |b[1..]| && a[1..][..k] == b[1..][..k] && a[1..][k] < b[1..][k]))
  {
    if a[0] == b[0] && exists k :: 0 <= k < |a[1..]| && k < |b[1..]| && a[1..][..k] == b[1..][..k] && a[1..][k] < b[1..][k] {
      var k :| 0 <= k < |a[1..]| && k < |b[1..]| && a[1..][..k] == b[1..][..k] && a[1..][k] < b[1..][k];
      assert a[..k + 1] == [a[0]] + a[1..][..k];
      assert b[..k + 1] == [b[0]] + b[1..][..k];
      assert a[k + 1] < b[k + 1];
    }
    if a[0] < b[0] {
      assert a[..0] == b[..0];
    }
    if exists k :: 0 <= k < |a| && k < |b| && a[..k] == b[..k] && a[k] < b[k] {
      var k :| 0 <= k < |a| && k < |b| && a[..k] == b[..k] && a[k] < b[k];
      if k > 0 {
        assert a[0] == a[..k][0] == b[..k][0] == b[0];
        assert a[1..][..k - 1] == a[..k][1..] == b[..k][1..] == b[1..][..k - 1];
        assert a[1..][k - 1] < b[1..][k - 1];
      }
    }
  }

  /** The same order, stated by where the two strings first differ. */
  lemma {:induction false} LexLessMeaning(a: string, b: string)
    ensures LexLess(a, b) <==>
              (|a| < |b| && a == b[..|a|]) ||
              (exists k :: 0 <= k < |a| && k < |b| && a[..k] == b[..k] && a[k] < b[k])
    decreases |a|
  {
    if |a| > 0 && |b| > 0 {
      LexLessMeaning(a[1..], b[1..]);
      PrefixStep(a, b);
      FirstDifferenceStep(a, b);
    }
  }

  lemma {:induction false} LexLessAsymmetric(a: string, b: string)
    ensures !(LexLess(a, b) && LexLess(b, a))
    decreases |a|
  {
    if |a| > 0 && |b| > 0 && a[0] == b[0] {
      LexLessAsymmetric(a[1..], b[1..]);
    }
  }

  lemma {:induction false} LexLessTrichotomy(a: string, b: string)
    ensures LexLess(a, b) || a == b || LexLess(b, a)
    decreases |a|
  {
    if |a| > 0 && |b| > 0 && a[0] == b[0] {
      LexLessTrichotomy(a[1..], b[1..]);
      assert a == [a[0]] + a[1..];
      assert b == [b[0]] + b[1..];
    }
  }

  lemma {:induction false} LexLessTransitive(a: string, b: string, c: string)
    requires LexLess(a, b) && LexLess(b, c)
    ensures LexLess(a, c)
    decreases |a|
  {
    if |a| > 0 && a[0] == b[0] && b[0] == c[0] {
      LexLessTransitive(a[1..], b[1..], c[1..]);
    }
  }

  /** `x < y` in JavaScript for two numbers or two strings; mixed keys never compare. */
  predicate KeyLess(x: Key, y: Key)
    ensures KeyLess(x, y) ==> x != y && x.Num? == y.Num?
  {
    match (x, y)
    case (Num(m), Num(n)) => m < n
    case (Text(s), Text(t)) => LexLess(s, t)
    case _ => false
  }

  lemma KeyLessAsymmetric(x: Key, y: Key)
    ensures !(KeyLess(x, y) && KeyLess(y, x))
  {
    if x.Text? && y.Text? {
      LexLessAsymmetric(x.s, y.s);
    }
  }

  /** Two keys of the same kind are ordered one way or the other, or equal. */
  lemma KeyLessTrichotomy(x: Key, y: Key)
    requires x.Num? == y.Num?
    ensures KeyLess(x, y) || x == y || KeyLess(y, x)
  {
    if x.Text? {
      LexLessTrichotomy(x.s, y.s);
    }
  }

  lemma KeyLessTransitive(x: Key, y: Key, z: Key)
    requires KeyLess(x, y) && KeyLess(y, z)
    ensures KeyLess(x, z)
  {
    if x.Text? {
      LexLessTransitive(x.s, y.s, z.s);
    }
  }
}
