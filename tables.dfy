/** Row-level table operations shared by every page: boolean-mask filters,
    the multi-select facility filter, the inclusive date-range filter, the
    inner join and order-of-appearance de-duplication.  A table is a
    sequence of records; a missing cell is `None`. */
module Tables {

  datatype Option<+T> = None | Some(value: T)

  /** The rows of `s` that satisfy `p`, in their original order (a boolean mask). */
  function Filter<T(!new)>(s: seq<T>, p: T -> bool): (r: seq<T>)
    ensures |r| <= |s|
    ensures forall x :: x in r <==> x in s && p(x)
    ensures forall x :: multiset(r)[x] == if p(x) then multiset(s)[x] else 0
  {
    if |s| == 0 then []
    else
      assert s == [s[0]] + s[1..];
      (if p(s[0]) then [s[0]] else []) + Filter(s[1..], p)
  }

  /** A mask distributes over concatenation: the filter keeps the original order. */
  lemma {:induction false} FilterAppend<T(!new)>(a: seq<T>, b: seq<T>, p: T -> bool)
    ensures Filter(a + b, p) == Filter(a, p) + Filter(b, p)
  {
    if |a| == 0 {
      assert a + b == b;
    } else {
      assert (a + b)[0] == a[0] && (a + b)[1..] == a[1..] + b;
      FilterAppend(a[1..], b, p);
      FilterCons(a + b, p);
      FilterCons(a, p);
      ConcatAssoc(if p(a[0]) then [a[0]] else [], Filter(a[1..], p), Filter(b, p));
    }
  }

  /** One step of the mask: the first row, if kept, then the mask of the rest. */
  lemma FilterCons<T(!new)>(s: seq<T>, p: T -> bool)
    requires |s| > 0
    ensures Filter(s, p) == (if p(s[0]) then [s[0]] else []) + Filter(s[1..], p)
  {
  }

  lemma ConcatAssoc<T>(h: seq<T>, x: seq<T>, y: seq<T>)
    ensures h + (x + y) == (h + x) + y
  {
  }

  /** Applying the same mask twice is the same as applying it once. */
  lemma {:induction false} FilterIdempotent<T(!new)>(s: seq<T>, p: T -> bool)
    ensures Filter(Filter(s, p), p) == Filter(s, p)
  {
    if |s| > 0 {
      FilterIdempotent(s[1..], p);
      var head := if p(s[0]) then [s[0]] else [];
      FilterAppend(head, Filter(s[1..], p), p);
    }
  }

  /** Two masks applied one after the other can be applied in either order. */
  lemma {:induction false} FilterCommutes<T(!new)>(s: seq<T>, p: T -> bool, q: T -> bool)
    ensures Filter(Filter(s, p), q) == Filter(Filter(s, q), p)
  {
    if |s| > 0 {
      FilterCommutes(s[1..], p, q);
      var hp := if p(s[0]) then [s[0]] else [];
      var hq := if q(s[0]) then [s[0]] else [];
      FilterAppend(hp, Filter(s[1..], p), q);
      FilterAppend(hq, Filter(s[1..], q), p);
    }
  }

  /** A mask that every row passes leaves the table unchanged. */
  lemma {:induction false} FilterKeepsAll<T(!new)>(s: seq<T>, p: T -> bool)
    requires forall i :: 0 <= i < |s| ==> p(s[i])
    ensures Filter(s, p) == s
  {
    if |s| > 0 {
      FilterKeepsAll(s[1..], p);
    }
  }

  // ---------------------------------------------------------------------
  // The multi-select facility filter and the date-range filter
  // ---------------------------------------------------------------------

  /** Python truthiness of a multi-select value: `None` and `[]` are "nothing selected". */
  predicate Selected(selection: Option<seq<string>>) {
    selection.Some? && |selection.value| > 0
  }

  /** `isin` on one cell: a missing cell is never in the selection. */
  predicate InSelection(cell: Option<string>, chosen: seq<string>) {
    cell.Some? && cell.value in chosen
  }

  /** `if facility: df = df[df[column].isin(facility)]`. */
  function FacilityFilter<T(!new)>(rows: seq<T>, facility: T -> Option<string>, selection: Option<seq<string>>): (r: seq<T>)
    ensures !Selected(selection) ==> r == rows
    ensures Selected(selection) ==>
      forall x :: x in r <==> x in rows && InSelection(facility(x), selection.value)
    ensures Selected(selection) ==>
      forall x :: multiset(r)[x] == if InSelection(facility(x), selection.value) then multiset(rows)[x] else 0
  {
    if Selected(selection) then Filter(rows, x => InSelection(facility(x), selection.value))
    else rows
  }

  /** Filtering twice on the same facility selection equals filtering once. */
  lemma FacilityFilterIdempotent<T(!new)>(rows: seq<T>, facility: T -> Option<string>, selection: Option<seq<string>>)
    ensures FacilityFilter(FacilityFilter(rows, facility, selection), facility, selection)
         == FacilityFilter(rows, facility, selection)
  {
    if Selected(selection) {
      FilterIdempotent(rows, x => InSelection(facility(x), selection.value));
    }
  }

  /** An empty selection and an absent selection filter alike. */
  lemma EmptySelectionIsNoSelection<T(!new)>(rows: seq<T>, facility: T -> Option<string>)
    ensures FacilityFilter(rows, facility, Some([])) == FacilityFilter(rows, facility, None) == rows
  {
  }

  /** `(df[date] >= start) & (df[date] <= end)`: inclusive at both ends. */
  function DateFilter<T(!new)>(rows: seq<T>, date: T -> int, start: int, end: int): (r: seq<T>)
    ensures forall x :: x in r <==> x in rows && start <= date(x) <= end
    ensures forall x :: multiset(r)[x] == if start <= date(x) <= end then multiset(rows)[x] else 0
  {
    Filter(rows, x => start <= date(x) <= end)
  }

  /** A date filter followed by a facility filter keeps exactly the rows passing both,
      and the two filters may be applied in either order. */
  lemma DateThenFacility<T(!new)>(rows: seq<T>, date: T -> int, start: int, end: int,
                            facility: T -> Option<string>, selection: Option<seq<string>>)
    ensures FacilityFilter(DateFilter(rows, date, start, end), facility, selection)
         == DateFilter(FacilityFilter(rows, facility, selection), date, start, end)
    ensures forall x :: x in FacilityFilter(DateFilter(rows, date, start, end), facility, selection) <==>
      x in rows && start <= date(x) <= end && (Selected(selection) ==> InSelection(facility(x), selection.value))
  {
    if Selected(selection) {
      FilterCommutes(rows, x => start <= date(x) <= end, x => InSelection(facility(x), selection.value));
    }
  }

  // ---------------------------------------------------------------------
  // Inner join
  // ---------------------------------------------------------------------

  /** The rows of `right` whose key equals `key`, each paired with `l`, in the order
      of `right`; each such row as often as `right` holds it. */
  function Matches<L(!new), R(!new), K(==)>(l: L, right: seq<R>, key: K, rk: R -> K): (r: seq<(L, R)>)
    ensures forall pr :: pr in r <==> pr.0 == l && pr.1 in right && rk(pr.1) == key
    ensures forall pr :: multiset(r)[pr] == if pr.0 == l && rk(pr.1) == key then multiset(right)[pr.1] else 0
  {
    if |right| == 0 then []
    else
      assert right == [right[0]] + right[1..];
      (if rk(right[0]) == key then [(l, right[0])] else []) + Matches(l, right[1..], key, rk)
  }

  /** `pd.merge(left, right, how="inner")`: for each left row in order, every right row
      with an equal key. A missing key (`None`) matches a missing key, as in pandas.
      Each pair of a left row and a right row with equal keys occurs once per pair of
      positions holding them. */
  function InnerJoin<L(!new), R(!new), K(==)>(left: seq<L>, right: seq<R>, lk: L -> K, rk: R -> K): (r: seq<(L, R)>)
    ensures forall pr :: pr in r <==> pr.0 in left && pr.1 in right && lk(pr.0) == rk(pr.1)
    ensures forall l, q :: multiset(r)[(l, q)] == if lk(l) == rk(q) then multiset(left)[l] * multiset(right)[q] else 0
  {
    if |left| == 0 then []
    else
      var m := Matches(left[0], right, lk(left[0]), rk);
      var rest := InnerJoin(left[1..], right, lk, rk);
      JoinStep(left, right, lk, rk, m, rest);
      m + rest
  }

  /** One more left row: its matches, then the join of the rows after it. */
  lemma JoinStep<L(!new), R(!new), K>(left: seq<L>, right: seq<R>, lk: L -> K, rk: R -> K, m: seq<(L, R)>, rest: seq<(L, R)>)
    requires |left| > 0
    requires forall pr :: multiset(m)[pr] == if pr.0 == left[0] && rk(pr.1) == lk(left[0]) then multiset(right)[pr.1] else 0
    requires forall l, q :: multiset(rest)[(l, q)] == if lk(l) == rk(q) then multiset(left[1..])[l] * multiset(right)[q] else 0
    ensures forall l, q :: multiset(m + rest)[(l, q)] == if lk(l) == rk(q) then multiset(left)[l] * multiset(right)[q] else 0
  {
    assert left == [left[0]] + left[1..];
    forall l, q ensures multiset(m + rest)[(l, q)] == if lk(l) == rk(q) then multiset(left)[l] * multiset(right)[q] else 0 {
      var here := if l == left[0] then 1 else 0;
      assert multiset(left)[l] == here + multiset(left[1..])[l];
      assert multiset(m + rest)[(l, q)] == multiset(m)[(l, q)] + multiset(rest)[(l, q)];
      if lk(l) == rk(q) {
        AddRow(here, multiset(left[1..])[l], multiset(right)[q]);
      }
    }
  }

  lemma AddRow(here: nat, before: nat, b: nat)
    ensures (here + before) * b == here * b + before * b
  {
  }

  /** The join of a concatenation is the concatenation of the joins. */
  lemma {:induction false} InnerJoinAppend<L(!new), R(!new), K>(a: seq<L>, b: seq<L>, right: seq<R>, lk: L -> K, rk: R -> K)
    ensures InnerJoin(a + b, right, lk, rk) == InnerJoin(a, right, lk, rk) + InnerJoin(b, right, lk, rk)
  {
    if |a| == 0 {
      assert a + b == b;
    } else {
      assert (a + b)[1..] == a[1..] + b;
      InnerJoinAppend(a[1..], b, right, lk, rk);
    }
  }

  /** A left row with no partner on the right contributes nothing to the join. */
  lemma UnmatchedRowDropped<L(!new), R(!new), K>(left: seq<L>, l: L, right: seq<R>, lk: L -> K, rk: R -> K)
    requires forall i :: 0 <= i < |right| ==> rk(right[i]) != lk(l)
    ensures InnerJoin(left + [l], right, lk, rk) == InnerJoin(left, right, lk, rk)
  {
    InnerJoinAppend(left, [l], right, lk, rk);
    assert [l][1..] == [];
  }

  // ---------------------------------------------------------------------
  // Series.unique()
  // ---------------------------------------------------------------------

  /** Position of the first occurrence of `x` in `s`. */
  function FirstIndex<T(==,!new)>(s: seq<T>, x: T): (i: nat)
    requires x in s
    ensures i < |s| && s[i] == x && x !in s[..i]
  {
    if s[0] == x then 0 else 1 + FirstIndex(s[1..], x)
  }

  lemma {:induction false} FirstIndexPrefix<T(!new)>(s: seq<T>, n: nat, x: T)
    requires n <= |s| && x in s[..n]
    ensures FirstIndex(s, x) == FirstIndex(s[..n], x)
  {
    if s[0] != x {
      assert s[..n][1..] == s[1..][..n - 1];
      FirstIndexPrefix(s[1..], n - 1, x);
    }
  }

  /** `Series.unique()`: every value once, in order of first appearance. */
  function Unique<T(==,!new)>(s: seq<T>): (r: seq<T>)
    ensures forall x :: x in r <==> x in s
    ensures forall i, j :: 0 <= i < j < |r| ==> r[i] != r[j]
    ensures forall i, j :: 0 <= i < j < |r| ==> FirstIndex(s, r[i]) < FirstIndex(s, r[j])
  {
    if |s| == 0 then []
    else
      var u := Unique(s[..|s| - 1]);
      UniqueExtend(s, u);
      if s[|s| - 1] in s[..|s| - 1] then u else u + [s[|s| - 1]]
  }

  /** One more row: a value not seen before goes last, a value seen before changes nothing. */
  lemma UniqueExtend<T(!new)>(s: seq<T>, u: seq<T>)
    requires |s| > 0
    requires forall x :: x in u <==> x in s[..|s| - 1]
    requires forall i, j :: 0 <= i < j < |u| ==> u[i] != u[j]
    requires forall i, j :: 0 <= i < j < |u| ==>
      u[i] in s[..|s| - 1] && u[j] in s[..|s| - 1] && FirstIndex(s[..|s| - 1], u[i]) < FirstIndex(s[..|s| - 1], u[j])
    ensures var r := if s[|s| - 1] in s[..|s| - 1] then u else u + [s[|s| - 1]];
      (forall x :: x in r <==> x in s)
      && (forall i, j :: 0 <= i < j < |r| ==> r[i] != r[j])
      && (forall i, j :: 0 <= i < j < |r| ==> FirstIndex(s, r[i]) < FirstIndex(s, r[j]))
  {
    var init := s[..|s| - 1];
    forall x | x in u ensures FirstIndex(s, x) == FirstIndex(init, x) < |s| - 1 {
      FirstIndexPrefix(s, |s| - 1, x);
    }
    assert s == init + [s[|s| - 1]];
    if s[|s| - 1] !in init {
      UniqueNew(s, u);
    }
  }

  /** A value not seen before goes last. */
  lemma UniqueNew<T(!new)>(s: seq<T>, u: seq<T>)
    requires |s| > 0 && s[|s| - 1] !in s[..|s| - 1]
    requires forall x :: x in u ==> x in s && FirstIndex(s, x) < |s| - 1
    requires forall i, j :: 0 <= i < j < |u| ==> u[i] != u[j]
    requires forall i, j :: 0 <= i < j < |u| ==> FirstIndex(s, u[i]) < FirstIndex(s, u[j])
    ensures var r := u + [s[|s| - 1]];
      (forall i, j :: 0 <= i < j < |r| ==> r[i] != r[j])
      && (forall i, j :: 0 <= i < j < |r| ==> FirstIndex(s, r[i]) < FirstIndex(s, r[j]))
  {
    var last := s[|s| - 1];
    assert s == s[..|s| - 1] + [last];
    assert FirstIndex(s, last) == |s| - 1;
    var r := u + [last];
    assert forall i :: 0 <= i < |u| ==> r[i] == u[i] && r[i] in u;
  }
}
