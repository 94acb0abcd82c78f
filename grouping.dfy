/** `groupby(...).size()`, `groupby(...).sum()` and `value_counts().get(k, 0)`.
    pandas sorts the group keys of a column ascending and drops rows whose key
    is missing; a fixed-domain series instead reads one count per enumerated
    bucket and gives 0 for a bucket no row falls into. */
module Grouping {
  import opened Tables

  /** A group-by key: a text cell, or a date given as a day number. */
  datatype Key = Day(day: int) | Text(text: string)

  /** Python's `<` on `str`: code point by code point, a proper prefix first. */
  predicate TextLess(a: string, b: string)
  {
    if |a| == 0 then |b| > 0
    else |b| > 0 && (a[0] < b[0] || (a[0] == b[0] && TextLess(a[1..], b[1..])))
  }

  /** The ascending order pandas sorts group keys by. Keys of one column are
      all days or all text; the order between the two kinds is arbitrary. */
  predicate KeyLess(a: Key, b: Key)
  {
    match (a, b)
    case (Day(x), Day(y)) => x < y
    case (Text(x), Text(y)) => TextLess(x, y)
    case (Day(_), Text(_)) => true
    case (Text(_), Day(_)) => false
  }

  lemma TextLessIrreflexive(a: string)
    ensures !TextLess(a, a)
  {
  }

  lemma {:induction false} TextLessTransitive(a: string, b: string, c: string)
    requires TextLess(a, b) && TextLess(b, c)
    ensures TextLess(a, c)
  {
    if |a| > 0 && a[0] == b[0] && b[0] == c[0] {
      TextLessTransitive(a[1..], b[1..], c[1..]);
    }
  }

  lemma {:induction false} TextLessTotal(a: string, b: string)
    ensures a == b || TextLess(a, b) || TextLess(b, a)
  {
    if |a| > 0 && |b| > 0 && a[0] == b[0] {
      TextLessTotal(a[1..], b[1..]);
      if a[1..] == b[1..] {
        assert a == [a[0]] + a[1..] && b == [b[0]] + b[1..];
      }
    }
  }

  lemma KeyLessTransitive(a: Key, b: Key, c: Key)
    requires KeyLess(a, b) && KeyLess(b, c)
    ensures KeyLess(a, c)
  {
    if a.Text? && b.Text? && c.Text? {
      TextLessTransitive(a.text, b.text, c.text);
    }
  }

  lemma KeyLessTotal(a: Key, b: Key)
    ensures a == b || KeyLess(a, b) || KeyLess(b, a)
  {
    if a.Text? && b.Text? {
      TextLessTotal(a.text, b.text);
    }
  }

  /** Strictly ascending, hence without repeats. */
  predicate Ascending(ks: seq<Key>)
  {
    forall i, j :: 0 <= i < j < |ks| ==> KeyLess(ks[i], ks[j])
  }

  predicate Distinct(ks: seq<Key>)
  {
    forall i, j :: 0 <= i < j < |ks| ==> ks[i] != ks[j]
  }

  lemma AscendingIsDistinct(ks: seq<Key>)
    requires Ascending(ks)
    ensures Distinct(ks)
  {
    forall i, j | 0 <= i < j < |ks| ensures ks[i] != ks[j] {
      if ks[i].Text? && ks[j].Text? {
        TextLessIrreflexive(ks[i].text);
      }
    }
  }

  /** Adds `k` to an ascending key list, keeping it ascending and without repeats. */
  function Insert(ks: seq<Key>, k: Key): (r: seq<Key>)
    requires Ascending(ks)
    ensures Ascending(r)
    ensures forall x :: x in r <==> x in ks || x == k
  {
    if |ks| == 0 then [k]
    else if ks[0] == k then ks
    else if KeyLess(k, ks[0]) then
      assert forall j :: 0 < j < |ks| ==> KeyLess(k, ks[j]) by {
        forall j | 0 < j < |ks| ensures KeyLess(k, ks[j]) {
          KeyLessTransitive(k, ks[0], ks[j]);
        }
      }
      [k] + ks
    else
      KeyLessTotal(k, ks[0]);
      var rest := Insert(ks[1..], k);
      assert forall x :: x in rest ==> KeyLess(ks[0], x);
      [ks[0]] + rest
  }

  /** The distinct present keys of a column, ascending (pandas drops missing keys). */
  function GroupKeys(column: seq<Option<Key>>): (r: seq<Key>)
    ensures Ascending(r)
    ensures forall k :: k in r <==> Some(k) in column
  {
    if |column| == 0 then []
    else
      assert column == [column[0]] + column[1..];
      var rest := GroupKeys(column[1..]);
      match column[0]
      case None => rest
      case Some(k) => Insert(rest, k)
  }

  // ---------------------------------------------------------------------
  // Weighted entries and group tables
  // ---------------------------------------------------------------------

  /** One row as the aggregation sees it: its key cell and what it adds to its group. */
  datatype Entry = Entry(key: Option<Key>, weight: nat)

  /** One row of an aggregate table. */
  datatype Group = Group(key: Key, total: nat)

  function KeyColumn(entries: seq<Entry>): (r: seq<Option<Key>>)
    ensures |r| == |entries|
    ensures forall i :: 0 <= i < |entries| ==> r[i] == entries[i].key
  {
    if |entries| == 0 then [] else [entries[0].key] + KeyColumn(entries[1..])
  }

  /** Sum of the weights of the entries whose key is `k`. */
  function SumFor(entries: seq<Entry>, k: Key): nat
  {
    if |entries| == 0 then 0
    else (if entries[0].key == Some(k) then entries[0].weight else 0) + SumFor(entries[1..], k)
  }

  /** Sum of the weights of the entries whose key is present. */
  function PresentWeight(entries: seq<Entry>): nat
  {
    if |entries| == 0 then 0
    else (if entries[0].key.Some? then entries[0].weight else 0) + PresentWeight(entries[1..])
  }

  /** One group per key of `ks`, in the order of `ks`. */
  function Tabulate(entries: seq<Entry>, ks: seq<Key>): (r: seq<Group>)
    ensures |r| == |ks|
    ensures forall i :: 0 <= i < |ks| ==> r[i].key == ks[i] && r[i].total == SumFor(entries, ks[i])
  {
    if |ks| == 0 then [] else [Group(ks[0], SumFor(entries, ks[0]))] + Tabulate(entries, ks[1..])
  }

  function KeysOf(gs: seq<Group>): (r: seq<Key>)
    ensures |r| == |gs|
    ensures forall i :: 0 <= i < |gs| ==> r[i] == gs[i].key
  {
    if |gs| == 0 then [] else [gs[0].key] + KeysOf(gs[1..])
  }

  /** The sum of a table's totals column. */
  function Totals(gs: seq<Group>): nat
  {
    if |gs| == 0 then 0 else gs[0].total + Totals(gs[1..])
  }

  lemma TotalsCons(g: Group, gs: seq<Group>)
    ensures Totals([g] + gs) == g.total + Totals(gs)
  {
    assert ([g] + gs)[1..] == gs;
  }

  lemma {:induction false} TotalsAppend(a: seq<Group>, b: seq<Group>)
    ensures Totals(a + b) == Totals(a) + Totals(b)
  {
    if |a| == 0 {
      assert a + b == b;
    } else {
      assert (a + b)[1..] == a[1..] + b;
      TotalsAppend(a[1..], b);
    }
  }

  /** What one entry adds to a table over distinct keys: its weight if its key is one of them. */
  lemma {:induction false} OneEntryTotal(x: Entry, ks: seq<Key>)
    requires Distinct(ks)
    ensures Totals(Tabulate([x], ks)) == if x.key.Some? && x.key.value in ks then x.weight else 0
  {
    if |ks| > 0 {
      assert Distinct(ks[1..]);
      OneEntryTotal(x, ks[1..]);
      assert [x][1..] == [];
      assert SumFor([x], ks[0]) == if x.key == Some(ks[0]) then x.weight else 0;
      TotalsCons(Group(ks[0], SumFor([x], ks[0])), Tabulate([x], ks[1..]));
      if x.key == Some(ks[0]) {
        assert x.key.value !in ks[1..];
      }
    }
  }

  lemma {:induction false} TabulateSplit(x: Entry, rest: seq<Entry>, ks: seq<Key>)
    ensures Totals(Tabulate([x] + rest, ks)) == Totals(Tabulate([x], ks)) + Totals(Tabulate(rest, ks))
  {
    if |ks| > 0 {
      TabulateSplit(x, rest, ks[1..]);
      assert ([x] + rest)[1..] == rest;
      assert [x][1..] == [];
      var k := ks[0];
      assert SumFor([x] + rest, k) == SumFor([x], k) + SumFor(rest, k);
      TotalsCons(Group(k, SumFor([x] + rest, k)), Tabulate([x] + rest, ks[1..]));
      TotalsCons(Group(k, SumFor([x], k)), Tabulate([x], ks[1..]));
      TotalsCons(Group(k, SumFor(rest, k)), Tabulate(rest, ks[1..]));
    }
  }

  /** Over distinct keys, a table's totals never exceed the weight of the rows with a
      present key, and equal it when every present key has its group. */
  lemma {:induction false} TabulateTotals(entries: seq<Entry>, ks: seq<Key>)
    requires Distinct(ks)
    ensures Totals(Tabulate(entries, ks)) <= PresentWeight(entries)
    ensures (forall i :: 0 <= i < |entries| && entries[i].key.Some? ==> entries[i].key.value in ks)
            ==> Totals(Tabulate(entries, ks)) == PresentWeight(entries)
  {
    if |entries| == 0 {
      TabulateEmpty(ks);
    } else {
      var x, rest := entries[0], entries[1..];
      assert entries == [x] + rest;
      TabulateSplit(x, rest, ks);
      OneEntryTotal(x, ks);
      TabulateTotals(rest, ks);
      if forall i :: 0 <= i < |entries| && entries[i].key.Some? ==> entries[i].key.value in ks {
        assert forall i :: 0 <= i < |rest| && rest[i].key.Some? ==> rest[i].key.value in ks by {
          forall i | 0 <= i < |rest| && rest[i].key.Some? ensures rest[i].key.value in ks {
            assert rest[i] == entries[i + 1];
          }
        }
      }
    }
  }

  lemma {:induction false} TabulateEmpty(ks: seq<Key>)
    ensures Totals(Tabulate([], ks)) == 0
  {
    if |ks| > 0 {
      TabulateEmpty(ks[1..]);
    }
  }

  /** `groupby(key)[...].sum()`: one group per distinct present key, ascending, whose
      total is the sum of its rows' weights; the totals add up to the weight of every
      row whose key is present. */
  function GroupSum(entries: seq<Entry>): (r: seq<Group>)
    ensures Ascending(KeysOf(r))
    ensures forall k :: k in KeysOf(r) <==> Some(k) in KeyColumn(entries)
    ensures forall i :: 0 <= i < |r| ==> r[i].total == SumFor(entries, r[i].key)
    ensures Totals(r) == PresentWeight(entries)
  {
    var ks := GroupKeys(KeyColumn(entries));
    var r := Tabulate(entries, ks);
    assert KeysOf(r) == ks;
    AscendingIsDistinct(ks);
    assert forall i :: 0 <= i < |entries| && entries[i].key.Some? ==> entries[i].key.value in ks by {
      forall i | 0 <= i < |entries| && entries[i].key.Some? ensures entries[i].key.value in ks {
        assert KeyColumn(entries)[i] == entries[i].key;
      }
    }
    TabulateTotals(entries, ks);
    r
  }

  // ---------------------------------------------------------------------
  // Counting rows: every row weighs the same
  // ---------------------------------------------------------------------

  /** Each key cell as an entry whose weight depends on the cell alone. */
  function Weighted(column: seq<Option<Key>>, w: Option<Key> -> nat): (r: seq<Entry>)
    ensures |r| == |column|
    ensures forall i :: 0 <= i < |column| ==> r[i] == Entry(column[i], w(column[i]))
  {
    if |column| == 0 then [] else [Entry(column[0], w(column[0]))] + Weighted(column[1..], w)
  }

  lemma KeyColumnOfWeighted(column: seq<Option<Key>>, w: Option<Key> -> nat)
    ensures KeyColumn(Weighted(column, w)) == column
  {
    var kc := KeyColumn(Weighted(column, w));
    assert |kc| == |column|;
    assert forall i :: 0 <= i < |column| ==> kc[i] == column[i];
  }

  function One(v: Option<Key>): nat { 1 }

  /** With a weight that depends on the key alone, a group's sum is that weight times
      the number of rows carrying the key. */
  lemma {:induction false} WeightedSum(column: seq<Option<Key>>, w: Option<Key> -> nat, k: Key)
    ensures SumFor(Weighted(column, w), k) == w(Some(k)) * multiset(column)[Some(k)]
  {
    if |column| > 0 {
      var c := w(Some(k));
      var rest := column[1..];
      WeightedSum(rest, w, k);
      assert column == [column[0]] + rest;
      assert multiset(column) == multiset{column[0]} + multiset(rest);
      assert Weighted(column, w)[1..] == Weighted(rest, w);
      var m := multiset(rest)[Some(k)];
      assert SumFor(Weighted(column, w), k)
          == (if column[0] == Some(k) then c else 0) + c * m;
      if column[0] == Some(k) {
        assert multiset(column)[Some(k)] == m + 1;
        MulSucc(c, m);
      } else {
        assert multiset(column)[Some(k)] == m;
      }
    }
  }

  lemma MulSucc(c: nat, m: nat)
    ensures c + c * m == c * (m + 1)
  {
  }

  /** Counting rows, every present key weighs as many rows as carry it. */
  lemma {:induction false} UnitPresentWeight(column: seq<Option<Key>>)
    ensures PresentWeight(Weighted(column, One)) == |column| - multiset(column)[None]
  {
    if |column| > 0 {
      var rest := column[1..];
      UnitPresentWeight(rest);
      assert column == [column[0]] + rest;
      assert multiset(column)[None] == multiset([column[0]])[None] + multiset(rest)[None];
      var w := Weighted(column, One);
      assert w[1..] == Weighted(rest, One);
      assert PresentWeight(w) == (if column[0].Some? then 1 else 0) + PresentWeight(Weighted(rest, One));
    }
  }

  /** `groupby(key).size()`: one group per distinct present key, ascending; each count is
      the number of rows with that key, at least 1; the counts add up to the number of
      rows whose key is present. */
  function GroupCount(column: seq<Option<Key>>): (r: seq<Group>)
    ensures Ascending(KeysOf(r))
    ensures forall k :: k in KeysOf(r) <==> Some(k) in column
    ensures forall i :: 0 <= i < |r| ==> r[i].total == multiset(column)[Some(r[i].key)] >= 1
    ensures Totals(r) == |column| - multiset(column)[None]
  {
    KeyColumnOfWeighted(column, One);
    CountsOfGroups(column, GroupSum(Weighted(column, One)));
    UnitPresentWeight(column);
    GroupSum(Weighted(column, One))
  }

  lemma CountsOfGroups(column: seq<Option<Key>>, r: seq<Group>)
    requires forall k :: k in KeysOf(r) ==> Some(k) in column
    requires forall i :: 0 <= i < |r| ==> r[i].total == SumFor(Weighted(column, One), r[i].key)
    ensures forall i :: 0 <= i < |r| ==> r[i].total == multiset(column)[Some(r[i].key)] >= 1
  {
    forall i | 0 <= i < |r| ensures r[i].total == multiset(column)[Some(r[i].key)] >= 1 {
      CountOfGroup(column, r, i);
    }
  }

  lemma CountOfGroup(column: seq<Option<Key>>, r: seq<Group>, i: nat)
    requires i < |r|
    requires Some(r[i].key) in column
    requires r[i].total == SumFor(Weighted(column, One), r[i].key)
    ensures r[i].total == multiset(column)[Some(r[i].key)] >= 1
  {
    WeightedSum(column, One, r[i].key);
  }

  /** `{k: value_counts().get(k, 0) for k in domain}`: exactly one count per bucket of
      the fixed domain, in the domain's order, 0 where no row falls in the bucket. Over
      a domain without repeats the counts add up to at most the number of rows. */
  function Buckets(column: seq<Option<Key>>, domain: seq<Key>): (r: seq<Group>)
    ensures |r| == |domain|
    ensures forall i :: 0 <= i < |domain| ==> r[i].key == domain[i] && r[i].total == multiset(column)[Some(domain[i])]
    ensures Distinct(domain) ==> Totals(r) <= |column| - multiset(column)[None]
  {
    var r := Tabulate(Weighted(column, One), domain);
    assert forall i :: 0 <= i < |domain| ==> r[i].total == multiset(column)[Some(domain[i])] by {
      forall i | 0 <= i < |domain| ensures r[i].total == multiset(column)[Some(domain[i])] {
        WeightedSum(column, One, domain[i]);
      }
    }
    assert Distinct(domain) ==> Totals(r) <= |column| - multiset(column)[None] by {
      if Distinct(domain) {
        TabulateTotals(Weighted(column, One), domain);
        UnitPresentWeight(column);
      }
    }
    r
  }
}
