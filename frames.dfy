/** Table operations shared by both dashboards: selecting rows with a boolean
    mask (`df[mask]`), the observed minimum and maximum of a column, and the
    ascending list of distinct group keys that a pandas `groupby` produces. */
module Frames {

  datatype Option<T> = None | Some(value: T)

  /** `a` is `b` with some elements removed and the rest in their original order. */
  ghost predicate IsSubsequence<T>(a: seq<T>, b: seq<T>)
    decreases |b|
  {
    a == [] ||
    (b != [] && ((a[0] == b[0] && IsSubsequence(a[1..], b[1..])) || IsSubsequence(a, b[1..])))
  }

  lemma {:induction false} SubsequenceOfCons<T>(a: seq<T>, x: T, b: seq<T>)
    requires IsSubsequence(a, b)
    ensures IsSubsequence(a, [x] + b)
  {
    assert ([x] + b)[1..] == b;
  }

  lemma {:induction false} SubsequenceLength<T>(a: seq<T>, b: seq<T>)
    requires IsSubsequence(a, b)
    ensures |a| <= |b|
    decreases |b|
  {
    if a != [] {
      if a[0] == b[0] && IsSubsequence(a[1..], b[1..]) {
        SubsequenceLength(a[1..], b[1..]);
      } else {
        SubsequenceLength(a, b[1..]);
      }
    }
  }

  /** Row selection by a boolean mask, `df[mask]`: the rows for which `keep`
      holds, in their original order, each as often as it occurs. */
  function Where<T(==,!new)>(s: seq<T>, keep: T -> bool): (r: seq<T>)
    ensures IsSubsequence(r, s)
    ensures forall x :: multiset(r)[x] == if keep(x) then multiset(s)[x] else 0
    ensures forall x :: x in r <==> x in s && keep(x)
  {
    if s == [] then []
    else
      var rest := Where(s[1..], keep);
      assert s == [s[0]] + s[1..];
      if keep(s[0]) then
        assert ([s[0]] + rest)[1..] == rest;
        [s[0]] + rest
      else
        SubsequenceOfCons(rest, s[0], s[1..]);
        rest
  }

  /** A mask that holds for every row selects the whole table. */
  lemma {:induction false} WhereKeepsAll<T(!new)>(s: seq<T>, keep: T -> bool)
    requires forall i :: 0 <= i < |s| ==> keep(s[i])
    ensures Where(s, keep) == s
  {
    if s != [] {
      WhereKeepsAll(s[1..], keep);
    }
  }

  /** Selecting with the same mask twice selects nothing more. */
  lemma {:induction false} WhereIdempotent<T(!new)>(s: seq<T>, keep: T -> bool)
    ensures Where(Where(s, keep), keep) == Where(s, keep)
  {
    var r := Where(s, keep);
    forall i | 0 <= i < |r|
      ensures keep(r[i])
    {
      assert r[i] in r;
    }
    WhereKeepsAll(r, keep);
  }

  /** A weaker mask never loses a row that a stronger mask keeps. */
  lemma {:induction false} WhereMonotone<T(!new)>(s: seq<T>, narrow: T -> bool, wide: T -> bool)
    requires forall x :: narrow(x) ==> wide(x)
    ensures IsSubsequence(Where(s, narrow), Where(s, wide))
  {
    if s != [] {
      WhereMonotone(s[1..], narrow, wide);
      var a, b := Where(s[1..], narrow), Where(s[1..], wide);
      if narrow(s[0]) {
        assert ([s[0]] + a)[1..] == a && ([s[0]] + b)[1..] == b;
      } else if wide(s[0]) {
        SubsequenceOfCons(a, s[0], b);
      }
    }
  }

  /** A mask and its negation split the table between them. */
  lemma {:induction false} WherePartition<T(!new)>(s: seq<T>, keep: T -> bool, drop: T -> bool)
    requires forall x :: drop(x) == !keep(x)
    ensures |Where(s, keep)| + |Where(s, drop)| == |s|
  {
    if s != [] {
      WherePartition(s[1..], keep, drop);
    }
  }

  /** `Series.min()` and `Series.max()` of an integer column. An empty column
      has neither: pandas answers NaN, and `int()` of NaN raises. */
  function Bounds(ys: seq<int>): (b: Option<(int, int)>)
    ensures b.None? <==> ys == []
    ensures b.Some? ==> b.value.0 in ys && b.value.1 in ys
    ensures b.Some? ==> forall y :: y in ys ==> b.value.0 <= y <= b.value.1
  {
    if ys == [] then None
    else
      assert ys == [ys[0]] + ys[1..];
      match Bounds(ys[1..])
      case None => Some((ys[0], ys[0]))
      case Some((lo, hi)) =>
        Some((if ys[0] < lo then ys[0] else lo, if hi < ys[0] then ys[0] else hi))
  }

  /** The Year column of a table, read from each row by `year`. */
  function Years<T>(rows: seq<T>, year: T -> int): (ys: seq<int>)
    ensures |ys| == |rows| && forall i :: 0 <= i < |rows| ==> ys[i] == year(rows[i])
  {
    seq(|rows|, i requires 0 <= i < |rows| => year(rows[i]))
  }

  /** The smallest and the largest Year of a table, which are a year
      slider's limits and its default value; none when the table is empty. */
  function YearBounds<T>(rows: seq<T>, year: T -> int): (b: Option<(int, int)>)
    ensures b.None? <==> rows == []
    ensures b.Some? ==> b.value.0 <= b.value.1
    ensures b.Some? ==> forall i :: 0 <= i < |rows| ==> b.value.0 <= year(rows[i]) <= b.value.1
    ensures b.Some? ==> exists i :: 0 <= i < |rows| && year(rows[i]) == b.value.0
    ensures b.Some? ==> exists i :: 0 <= i < |rows| && year(rows[i]) == b.value.1
  {
    var ys := Years(rows, year);
    var b := Bounds(ys);
    if b.Some? then
      assert forall i :: 0 <= i < |rows| ==> ys[i] in ys;
      assert b.value.0 in ys && b.value.1 in ys;
      b
    else
      b
  }

  /** `df[(df['Year'] >= lo) & (df['Year'] <= hi)]`: the rows whose Year lies
      in the inclusive range, in their original order, each as often as it occurs. */
  function InYearRange<T(==,!new)>(rows: seq<T>, year: T -> int, lo: int, hi: int): (r: seq<T>)
    ensures IsSubsequence(r, rows)
    ensures forall x :: multiset(r)[x] == if lo <= year(x) <= hi then multiset(rows)[x] else 0
    ensures forall i :: 0 <= i < |r| ==> lo <= year(r[i]) <= hi
  {
    var r := Where(rows, x => lo <= year(x) <= hi);
    assert forall i :: 0 <= i < |r| ==> r[i] in r;
    r
  }

  /** The range filter row by row: the first row is kept exactly when its
      Year lies in the range. */
  lemma {:induction false} InYearRangeCons<T(!new)>(x: T, rows: seq<T>, year: T -> int, lo: int, hi: int)
    ensures InYearRange([x] + rows, year, lo, hi) ==
      if lo <= year(x) <= hi then [x] + InYearRange(rows, year, lo, hi) else InYearRange(rows, year, lo, hi)
  {
    assert ([x] + rows)[1..] == rows;
  }

  /** The slider's default value, (min, max), keeps every row. */
  lemma {:induction false} DefaultRangeKeepsAll<T(!new)>(rows: seq<T>, year: T -> int)
    requires YearBounds(rows, year).Some?
    ensures InYearRange(rows, year, YearBounds(rows, year).value.0, YearBounds(rows, year).value.1) == rows
  {
    var (lo, hi) := YearBounds(rows, year).value;
    WhereKeepsAll(rows, x => lo <= year(x) <= hi);
  }

  /** Widening the range never drops a row that the narrower range keeps. */
  lemma {:induction false} InYearRangeMonotone<T(!new)>(rows: seq<T>, year: T -> int, lo: int, hi: int, lo': int, hi': int)
    requires lo' <= lo && hi <= hi'
    ensures IsSubsequence(InYearRange(rows, year, lo, hi), InYearRange(rows, year, lo', hi'))
    ensures |InYearRange(rows, year, lo, hi)| <= |InYearRange(rows, year, lo', hi')|
  {
    WhereMonotone(rows, x => lo <= year(x) <= hi, x => lo' <= year(x) <= hi');
    SubsequenceLength(InYearRange(rows, year, lo, hi), InYearRange(rows, year, lo', hi'));
  }

  /** A range whose ends are reversed raises nothing: it selects no row. */
  lemma {:induction false} ReversedRangeIsEmpty<T(!new)>(rows: seq<T>, year: T -> int, lo: int, hi: int)
    requires hi < lo
    ensures InYearRange(rows, year, lo, hi) == []
  {
    var r := InYearRange(rows, year, lo, hi);
    assert multiset(r) == multiset{};
  }

  /** `less` is irreflexive, transitive and relates any two distinct values. */
  ghost predicate StrictTotalOrder<T(!new)>(less: (T, T) -> bool)
  {
    && (forall x :: !less(x, x))
    && (forall x, y, z :: less(x, y) && less(y, z) ==> less(x, z))
    && (forall x, y :: x == y || less(x, y) || less(y, x))
  }

  ghost predicate StrictlySorted<T>(s: seq<T>, less: (T, T) -> bool)
  {
    forall i, j :: 0 <= i < j < |s| ==> less(s[i], s[j])
  }

  predicate IntLess(a: int, b: int)
  {
    a < b
  }

  lemma IntLessIsStrictTotalOrder()
    ensures StrictTotalOrder(IntLess)
  {
  }

  /** Adds `x` to a sorted list of distinct keys unless it is already there. */
  function Insert<T(==,!new)>(x: T, s: seq<T>, less: (T, T) -> bool): (r: seq<T>)
    ensures forall y :: y in r <==> y == x || y in s
  {
    if s == [] then [x]
    else if x == s[0] then s
    else if less(x, s[0]) then [x] + s
    else
      assert s == [s[0]] + s[1..];
      [s[0]] + Insert(x, s[1..], less)
  }

  lemma {:induction false} InsertSorted<T(!new)>(x: T, s: seq<T>, less: (T, T) -> bool)
    requires StrictTotalOrder(less) && StrictlySorted(s, less)
    ensures StrictlySorted(Insert(x, s, less), less)
  {
    if s != [] && x != s[0] && !less(x, s[0]) {
      assert less(s[0], x);
      InsertSorted(x, s[1..], less);
      var t := Insert(x, s[1..], less);
      forall k | 0 <= k < |t|
        ensures less(s[0], t[k])
      {
        assert t[k] in t;
      }
    }
  }

  /** The distinct values of a key column in ascending order: the index a
      pandas `groupby` (with its default `sort=True`) builds. */
  function SortedKeys<T(==,!new)>(xs: seq<T>, less: (T, T) -> bool): (r: seq<T>)
    ensures forall y :: y in r <==> y in xs
  {
    if xs == [] then []
    else
      assert xs == [xs[0]] + xs[1..];
      Insert(xs[0], SortedKeys(xs[1..], less), less)
  }

  lemma {:induction false} SortedKeysSorted<T(!new)>(xs: seq<T>, less: (T, T) -> bool)
    requires StrictTotalOrder(less)
    ensures StrictlySorted(SortedKeys(xs, less), less)
  {
    if xs != [] {
      SortedKeysSorted(xs[1..], less);
      InsertSorted(xs[0], SortedKeys(xs[1..], less), less);
    }
  }

  predicate NoDuplicates<T(==)>(s: seq<T>)
  {
    forall i, j :: 0 <= i < j < |s| ==> s[i] != s[j]
  }

  lemma SortedHasNoDuplicates<T(!new)>(s: seq<T>, less: (T, T) -> bool)
    requires StrictTotalOrder(less) && StrictlySorted(s, less)
    ensures NoDuplicates(s)
  {
  }
}
