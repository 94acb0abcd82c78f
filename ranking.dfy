/** `sort_values(by, ascending=False)` and `.head(n)`: ranking the rows of an
    aggregate table by a score, largest first. */
module Ranking {
  import opened Tables
  import opened Grouping

  /** Largest score first. */
  predicate Descending<T(!new)>(s: seq<T>, score: T -> real)
  {
    forall i, j :: 0 <= i < j < |s| ==> score(s[i]) >= score(s[j])
  }

  /** Places `x` before the first row it does not rank below. */
  function InsertDesc<T(!new)>(x: T, s: seq<T>, score: T -> real): (r: seq<T>)
    requires Descending(s, score)
    ensures Descending(r, score)
    ensures multiset(r) == multiset(s) + multiset{x}
  {
    if |s| == 0 then [x]
    else if score(x) >= score(s[0]) then [x] + s
    else
      var rest := InsertDesc(x, s[1..], score);
      assert forall k :: 0 <= k < |rest| ==> score(s[0]) >= score(rest[k]) by {
        forall k | 0 <= k < |rest| ensures score(s[0]) >= score(rest[k]) {
          HeadDominates(x, s, rest, rest[k], score);
        }
      }
      assert s == [s[0]] + s[1..];
      [s[0]] + rest
  }

  lemma HeadDominates<T(!new)>(x: T, s: seq<T>, rest: seq<T>, y: T, score: T -> real)
    requires |s| > 0 && Descending(s, score) && score(x) < score(s[0])
    requires multiset(rest) == multiset(s[1..]) + multiset{x}
    requires y in rest
    ensures score(s[0]) >= score(y)
  {
    assert y in multiset(rest);
    if y != x {
      assert y in multiset(s[1..]);
      assert y in s[1..];
      var j :| 0 <= j < |s| - 1 && s[1..][j] == y;
      assert s[j + 1] == y;
    }
  }

  /** `sort_values(by=score, ascending=False)`: the same rows, largest score first. */
  function SortDesc<T(!new)>(s: seq<T>, score: T -> real): (r: seq<T>)
    ensures Descending(r, score)
    ensures multiset(r) == multiset(s)
    ensures |r| == |s|
  {
    if |s| == 0 then []
    else
      assert s == [s[0]] + s[1..];
      InsertDesc(s[0], SortDesc(s[1..], score), score)
  }

  /** `sort_values(by=score, ascending=False).head(n)`: at most `n` rows, largest first,
      drawn from `s`; no row left out scores above a row kept. */
  function Top<T(!new)>(s: seq<T>, score: T -> real, n: nat): (r: seq<T>)
    ensures |r| == if n < |s| then n else |s|
    ensures Descending(r, score)
    ensures multiset(r) <= multiset(s)
    ensures forall x, y :: x in r && y in multiset(s) - multiset(r) ==> score(y) <= score(x)
  {
    var sorted := SortDesc(s, score);
    var m := if n < |s| then n else |s|;
    CutDominates(sorted, m, score);
    sorted[..m]
  }

  /** Cutting a descending sequence: what is cut off scores no higher than what is kept. */
  lemma CutDominates<T(!new)>(sorted: seq<T>, m: nat, score: T -> real)
    requires m <= |sorted| && Descending(sorted, score)
    ensures multiset(sorted[..m]) <= multiset(sorted)
    ensures forall x, y :: x in sorted[..m] && y in multiset(sorted) - multiset(sorted[..m]) ==> score(y) <= score(x)
  {
    CutMultiset(sorted, m);
    forall x, y | x in sorted[..m] && y in multiset(sorted) - multiset(sorted[..m]) ensures score(y) <= score(x) {
      assert y in multiset(sorted[m..]);
      CutPair(sorted, m, score, x, y);
    }
  }

  /** The rows cut off are the rows of the tail. */
  lemma CutMultiset<T>(sorted: seq<T>, m: nat)
    requires m <= |sorted|
    ensures multiset(sorted) == multiset(sorted[..m]) + multiset(sorted[m..])
    ensures multiset(sorted) - multiset(sorted[..m]) == multiset(sorted[m..])
  {
    assert sorted == sorted[..m] + sorted[m..];
  }

  /** A row of the head scores at least as high as a row of the tail. */
  lemma CutPair<T(!new)>(sorted: seq<T>, m: nat, score: T -> real, x: T, y: T)
    requires m <= |sorted| && Descending(sorted, score)
    requires x in sorted[..m] && y in sorted[m..]
    ensures score(y) <= score(x)
  {
    var i :| 0 <= i < m && sorted[..m][i] == x;
    var j :| 0 <= j < |sorted| - m && sorted[m..][j] == y;
    assert sorted[i] == x && sorted[m + j] == y;
  }

  lemma {:induction false} TotalsInsertDesc(x: Group, s: seq<Group>, score: Group -> real)
    requires Descending(s, score)
    ensures Totals(InsertDesc(x, s, score)) == x.total + Totals(s)
  {
    if |s| == 0 {
      TotalsCons(x, []);
    } else if score(x) >= score(s[0]) {
      TotalsCons(x, s);
    } else {
      TotalsInsertDesc(x, s[1..], score);
      TotalsCons(s[0], InsertDesc(x, s[1..], score));
      TotalsCons(s[0], s[1..]);
      assert s == [s[0]] + s[1..];
    }
  }

  /** Re-ordering an aggregate table keeps the sum of its totals. */
  lemma {:induction false} TotalsSortDesc(gs: seq<Group>, score: Group -> real)
    ensures Totals(SortDesc(gs, score)) == Totals(gs)
  {
    if |gs| > 0 {
      TotalsSortDesc(gs[1..], score);
      TotalsInsertDesc(gs[0], SortDesc(gs[1..], score), score);
      TotalsCons(gs[0], gs[1..]);
      assert gs == [gs[0]] + gs[1..];
    }
  }

  /** The score of a count table: its total. */
  function ByTotal(g: Group): real { g.total as real }

  /** Two tables holding the same rows list the same keys. */
  lemma SameKeys(a: seq<Group>, b: seq<Group>)
    requires multiset(a) == multiset(b)
    ensures forall k :: k in KeysOf(a) <==> k in KeysOf(b)
  {
    forall k | k in KeysOf(a) ensures k in KeysOf(b) {
      KeyFromTable(a, b, k);
    }
    forall k | k in KeysOf(b) ensures k in KeysOf(a) {
      KeyFromTable(b, a, k);
    }
  }

  lemma KeyFromTable(a: seq<Group>, b: seq<Group>, k: Key)
    requires multiset(a) == multiset(b) && k in KeysOf(a)
    ensures k in KeysOf(b)
  {
    var i :| 0 <= i < |a| && KeysOf(a)[i] == k;
    assert a[i] in multiset(b);
    var j :| 0 <= j < |b| && b[j] == a[i];
    assert KeysOf(b)[j] == k;
  }

  lemma PermutedCounts(a: seq<Group>, b: seq<Group>, column: seq<Option<Key>>)
    requires multiset(a) == multiset(b)
    requires forall j :: 0 <= j < |b| ==> b[j].total == multiset(column)[Some(b[j].key)] >= 1
    ensures forall i :: 0 <= i < |a| ==> a[i].total == multiset(column)[Some(a[i].key)] >= 1
  {
    forall i | 0 <= i < |a| ensures a[i].total == multiset(column)[Some(a[i].key)] >= 1 {
      assert a[i] in multiset(b);
      var j :| 0 <= j < |b| && b[j] == a[i];
    }
  }

  /** `value_counts()`: one row per distinct present value, largest count first; each
      count is the number of cells holding the value, and together they count every
      cell that is not missing. */
  function ValueCounts(column: seq<Option<Key>>): (r: seq<Group>)
    ensures Descending(r, ByTotal)
    ensures forall k :: k in KeysOf(r) <==> Some(k) in column
    ensures forall i :: 0 <= i < |r| ==> r[i].total == multiset(column)[Some(r[i].key)] >= 1
    ensures Totals(r) == |column| - multiset(column)[None]
  {
    var groups := GroupCount(column);
    var r := SortDesc(groups, ByTotal);
    SameKeys(r, groups);
    TotalsSortDesc(groups, ByTotal);
    PermutedCounts(r, groups, column);
    r
  }
}
