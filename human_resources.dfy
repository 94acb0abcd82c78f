/** The human-resources page.  The personal-data and employment tables are
    joined on `email`; each chart filters the joined table by the facilities
    selected, then counts workers by qualification, age group, cadre or
    employment type, as plain counts or as a percentage of the whole. */
module HumanResources {
  import opened Tables
  import opened Grouping
  import opened Ranking
  import opened Entities

  /** A row of the joined table: a worker's personal data and employment record. */
  type HrRow = (Personal, Employment)

  function PersonalEmail(p: Personal): Option<string> { p.email }

  function EmploymentEmail(e: Employment): Option<string> { e.email }

  /** `merge_hr_data`: `pd.merge(personal, employment, on="email", how="inner")`.  Every
      row pairs a personal record with an employment record of the same email (a
      missing email matching a missing email, as in pandas), and every such pair is
      a row, once per pair of records holding it. */
  function MergeHr(personal: seq<Personal>, employment: seq<Employment>): (r: seq<HrRow>)
    ensures forall x :: x in r <==> x.0 in personal && x.1 in employment && x.0.email == x.1.email
    ensures forall p, e :: multiset(r)[(p, e)] ==
                if p.email == e.email then multiset(personal)[p] as int * multiset(employment)[e] else 0
  {
    InnerJoin(personal, employment, PersonalEmail, EmploymentEmail)
  }

  /** A worker without an employment record under the same email is not in the
      joined table. */
  lemma UnemployedWorkerDropped(personal: seq<Personal>, p: Personal, employment: seq<Employment>)
    requires forall i :: 0 <= i < |employment| ==> employment[i].email != p.email
    ensures MergeHr(personal + [p], employment) == MergeHr(personal, employment)
  {
    UnmatchedRowDropped(personal, p, employment, PersonalEmail, EmploymentEmail);
  }

  function FacilityStationed(x: HrRow): Option<string> { x.1.facilityStationed }

  /** `if facility: df = df[df["facility_stationed"].isin(facility)]`. */
  function ByFacility(rows: seq<HrRow>, facility: Option<seq<string>>): (r: seq<HrRow>)
    ensures !Selected(facility) ==> r == rows
    ensures Selected(facility) ==>
      forall x :: x in r <==> x in rows && InSelection(x.1.facilityStationed, facility.value)
    ensures Selected(facility) ==>
      forall x :: multiset(r)[x] == if InSelection(x.1.facilityStationed, facility.value) then multiset(rows)[x] else 0
  {
    FacilityFilter(rows, FacilityStationed, facility)
  }

  function Qualification(x: HrRow): Option<string> { x.1.qualification }

  predicate HasQualification(x: HrRow) { x.1.qualification.Some? }

  /** `prepare_employee_counts_by_qualification`: `groupby("qualification").size()` over
      the filtered rows.  One row per qualification held by a filtered worker, in
      ascending order, each counting the workers holding it (at least one); together
      they count every filtered worker whose qualification is recorded. */
  function CountsByQualification(rows: seq<HrRow>, facility: Option<seq<string>>): (r: seq<Group>)
    ensures Ascending(KeysOf(r))
    ensures forall k :: k in KeysOf(r) <==> Some(k) in QualificationColumn(rows, facility)
    ensures forall i :: 0 <= i < |r| ==>
      r[i].total == multiset(QualificationColumn(rows, facility))[Some(r[i].key)] >= 1
    ensures Totals(r) == |Filter(ByFacility(rows, facility), HasQualification)|
  {
    var column := QualificationColumn(rows, facility);
    PresentCells(ByFacility(rows, facility), Qualification, HasQualification);
    assert Recorded(column) == |Filter(ByFacility(rows, facility), HasQualification)|;
    var r := GroupCount(column);
    assert Totals(r) == Recorded(column);
    r
  }

  /** The qualification cells of the filtered rows. */
  function QualificationColumn(rows: seq<HrRow>, facility: Option<seq<string>>): seq<Option<Key>>
  {
    TextColumn(ByFacility(rows, facility), Qualification)
  }

  /** The rows with a missing cell are the rows not counted. */
  lemma {:induction false} PresentCells(rows: seq<HrRow>, f: HrRow -> Option<string>, present: HrRow -> bool)
    requires forall x :: present(x) == f(x).Some?
    ensures Recorded(TextColumn(rows, f)) == |Filter(rows, present)|
  {
    if |rows| > 0 {
      var rest := TextColumn(rows[1..], f);
      assert TextColumn(rows, f) == [TextKey(f(rows[0]))] + rest;
      assert multiset(TextColumn(rows, f))[None] == multiset([TextKey(f(rows[0]))])[None] + multiset(rest)[None];
      PresentCells(rows[1..], f, present);
      FilterCons(rows, present);
    }
  }

  /** The qualification chart: the same counts, largest first; each bar counts the
      filtered workers holding its qualification. */
  function QualificationChart(rows: seq<HrRow>, facility: Option<seq<string>>): (r: seq<Group>)
    ensures Descending(r, ByTotal)
    ensures forall k :: k in KeysOf(r) <==> k in KeysOf(CountsByQualification(rows, facility))
    ensures forall i :: 0 <= i < |r| ==>
      r[i].total == multiset(QualificationColumn(rows, facility))[Some(r[i].key)] >= 1
    ensures Totals(r) == Totals(CountsByQualification(rows, facility))
  {
    QualificationTotals(rows, facility);
    ValueCounts(QualificationColumn(rows, facility))
  }

  /** The counts of the qualification table add up to the recorded cells. */
  lemma QualificationTotals(rows: seq<HrRow>, facility: Option<seq<string>>)
    ensures var column := QualificationColumn(rows, facility);
      Totals(CountsByQualification(rows, facility)) == |column| - multiset(column)[None]
  {
    assert CountsByQualification(rows, facility) == GroupCount(QualificationColumn(rows, facility));
  }

  // ---------------------------------------------------------------------
  // Age groups as an ordered categorical
  // ---------------------------------------------------------------------

  /** The categories of the age-group axis, in order. */
  const HrAgeOrder: seq<string> := ["< 20", "20-29", "30-39", "40-49", "50-59", "60+"]

  /** One bar of the age chart: the categorical code of the group's label (its position
      among the categories, -1 when the label is not one of them and so reads as
      missing) and the number of workers in the group. */
  datatype AgeCount = AgeCount(code: int, counts: nat)

  /** The label a code stands for; missing for -1. */
  function CategoryOf(a: AgeCount): (c: Option<string>)
    ensures c.Some? <==> 0 <= a.code < |HrAgeOrder|
  {
    if 0 <= a.code < |HrAgeOrder| then Some(HrAgeOrder[a.code]) else None
  }

  function AgeGroup(x: HrRow): Option<string> { x.0.ageGroup }

  /** The code column of an age chart. */
  function Codes(r: seq<AgeCount>): (cs: seq<int>)
    ensures |cs| == |r|
    ensures forall i :: 0 <= i < |r| ==> cs[i] == r[i].code
  {
    if |r| == 0 then [] else [r[0].code] + Codes(r[1..])
  }

  /** The categories of `order` from position `from` on that some cell holds, in
      category order, each with its number of cells. */
  function KnownAges(column: seq<Option<Key>>, order: seq<string>, from: nat): (r: seq<AgeCount>)
    requires from <= |order|
    ensures forall i :: 0 <= i < |r| ==>
      from <= r[i].code < |order|
      && r[i].counts == multiset(column)[Some(Text(order[r[i].code]))] >= 1
    ensures forall i, j :: 0 <= i < j < |r| ==> r[i].code < r[j].code
    ensures forall c :: from <= c < |order| ==>
      (Some(Text(order[c])) in column <==> c in Codes(r))
    decreases |order| - from
  {
    if from == |order| then []
    else
      var rest := KnownAges(column, order, from + 1);
      if Some(Text(order[from])) in column then
        var r := [AgeCount(from, multiset(column)[Some(Text(order[from]))])] + rest;
        KnownAgesStep(rest, r, from);
        r
      else
        assert from !in Codes(rest);
        rest
  }

  lemma KnownAgesStep(rest: seq<AgeCount>, r: seq<AgeCount>, from: nat)
    requires |r| == |rest| + 1 && r[0].code == from && r[1..] == rest
    requires forall i :: 0 <= i < |rest| ==> from < rest[i].code
    ensures Codes(r) == [from] + Codes(rest)
    ensures forall i :: 0 < i < |r| ==> r[i] == rest[i - 1]
  {
  }

  /** Whether a group key is one of the categories of `order`. */
  predicate IsCategory(k: Key, order: seq<string>)
  {
    k.Text? && k.text in order
  }

  /** The groups whose key is not one of the categories, in the groups' order. */
  function Others(groups: seq<Group>, order: seq<string>): (r: seq<Group>)
    ensures forall g :: g in r <==> g in groups && !IsCategory(g.key, order)
  {
    if |groups| == 0 then []
    else
      assert groups == [groups[0]] + groups[1..];
      (if IsCategory(groups[0].key, order) then [] else [groups[0]]) + Others(groups[1..], order)
  }

  /** Keeping some of the groups keeps their keys ascending. */
  lemma {:induction false} OthersAscending(groups: seq<Group>, order: seq<string>)
    ensures Ascending(KeysOf(groups)) ==> Ascending(KeysOf(Others(groups, order)))
  {
    if |groups| > 0 {
      var rest := Others(groups[1..], order);
      OthersAscending(groups[1..], order);
      AscendingTail(groups);
      if !IsCategory(groups[0].key, order) {
        assert Others(groups, order) == [groups[0]] + rest;
        OthersStep(groups, rest);
      }
    }
  }

  lemma AscendingTail(groups: seq<Group>)
    requires |groups| > 0
    ensures Ascending(KeysOf(groups)) ==> Ascending(KeysOf(groups[1..]))
  {
    var ks, ts := KeysOf(groups), KeysOf(groups[1..]);
    assert forall i :: 0 <= i < |ts| ==> ts[i] == ks[i + 1];
  }

  lemma OthersStep(groups: seq<Group>, rest: seq<Group>)
    requires |groups| > 0
    requires forall g :: g in rest ==> g in groups[1..]
    requires Ascending(KeysOf(groups[1..])) ==> Ascending(KeysOf(rest))
    ensures Ascending(KeysOf(groups)) ==> Ascending(KeysOf([groups[0]] + rest))
  {
    if Ascending(KeysOf(groups)) {
      AscendingTail(groups);
      var ks, r := KeysOf(groups), [groups[0]] + rest;
      var rs := KeysOf(r);
      forall i, j | 0 <= i < j < |rs| ensures KeyLess(rs[i], rs[j]) {
        if i == 0 {
          assert r[j] in groups[1..];
          var m :| 0 <= m < |groups[1..]| && groups[1..][m] == r[j];
          assert ks[0] == rs[0] && ks[m + 1] == rs[j];
        } else {
          assert rs[i] == KeysOf(rest)[i - 1] && rs[j] == KeysOf(rest)[j - 1];
        }
      }
    }
  }

  /** The labels of a column that are no category, each once, in ascending order,
      each with its number of cells: the groups that the categorical turns missing. */
  function OtherLabels(column: seq<Option<Key>>, order: seq<string>): (r: seq<Group>)
    ensures Ascending(KeysOf(r))
    ensures forall k :: k in KeysOf(r) <==> Some(k) in column && !IsCategory(k, order)
    ensures forall i :: 0 <= i < |r| ==> r[i].total == multiset(column)[Some(r[i].key)] >= 1
  {
    var groups := GroupCount(column);
    var r := Others(groups, order);
    OthersAscending(groups, order);
    OtherKeys(groups, r, order);
    r
  }

  lemma OtherKeys(groups: seq<Group>, r: seq<Group>, order: seq<string>)
    requires forall g :: g in r <==> g in groups && !IsCategory(g.key, order)
    ensures forall k :: k in KeysOf(r) <==> k in KeysOf(groups) && !IsCategory(k, order)
  {
    forall k ensures k in KeysOf(r) <==> k in KeysOf(groups) && !IsCategory(k, order) {
      if k in KeysOf(r) {
        var i :| 0 <= i < |r| && KeysOf(r)[i] == k;
        assert r[i] in groups;
        var j :| 0 <= j < |groups| && groups[j] == r[i];
        assert KeysOf(groups)[j] == k;
      }
      if k in KeysOf(groups) && !IsCategory(k, order) {
        var j :| 0 <= j < |groups| && KeysOf(groups)[j] == k;
        assert groups[j] in r;
        var i :| 0 <= i < |r| && r[i] == groups[j];
        assert KeysOf(r)[i] == k;
      }
    }
  }

  /** Each group as a bar with code -1, in the groups' order. */
  function UnknownAges(groups: seq<Group>): (r: seq<AgeCount>)
    ensures |r| == |groups|
    ensures forall i :: 0 <= i < |r| ==> r[i] == AgeCount(-1, groups[i].total)
  {
    if |groups| == 0 then [] else [AgeCount(-1, groups[0].total)] + UnknownAges(groups[1..])
  }

  /** A count table made an ordered categorical over `order` and sorted by it, missing
      values last: the present categories first, then one bar with code -1 for each
      label outside them, in ascending label order, with its count. */
  function ByCategory(column: seq<Option<Key>>, order: seq<string>): (r: seq<AgeCount>)
    ensures forall i :: 0 <= i < |r| ==> -1 <= r[i].code < |order| && r[i].counts >= 1
    ensures forall i, j :: 0 <= i < j < |r| && r[j].code != -1 ==> 0 <= r[i].code < r[j].code
    ensures forall i :: 0 <= i < |r| && r[i].code != -1 ==>
      r[i].counts == multiset(column)[Some(Text(order[r[i].code]))]
    ensures forall c :: 0 <= c < |order| ==> (Some(Text(order[c])) in column <==> c in Codes(r))
    ensures var others := OtherLabels(column, order);
      |others| <= |r|
      && (forall i :: 0 <= i < |r| - |others| ==> r[i].code != -1)
      && r[|r| - |others|..] == UnknownAges(others)
  {
    var known := KnownAges(column, order, 0);
    var others := OtherLabels(column, order);
    var unknown := UnknownAges(others);
    KnownBeforeUnknown(column, order, known, unknown);
    CodesAppend(known, unknown);
    assert forall c :: 0 <= c ==> c !in Codes(unknown);
    var r := known + unknown;
    assert |r| - |others| == |known| && r[|known|..] == unknown;
    r
  }

  /** The categories in order, then the labels outside them. */
  lemma KnownBeforeUnknown(column: seq<Option<Key>>, order: seq<string>, known: seq<AgeCount>, unknown: seq<AgeCount>)
    requires forall i :: 0 <= i < |known| ==>
      0 <= known[i].code < |order| && known[i].counts == multiset(column)[Some(Text(order[known[i].code]))] >= 1
    requires forall i, j :: 0 <= i < j < |known| ==> known[i].code < known[j].code
    requires forall i :: 0 <= i < |unknown| ==> unknown[i].code == -1 && unknown[i].counts >= 1
    ensures var r := known + unknown;
      (forall i :: 0 <= i < |r| ==> -1 <= r[i].code < |order| && r[i].counts >= 1)
      && (forall i, j :: 0 <= i < j < |r| && r[j].code != -1 ==> 0 <= r[i].code < r[j].code)
      && (forall i :: 0 <= i < |r| && r[i].code != -1 ==>
            r[i].counts == multiset(column)[Some(Text(order[r[i].code]))])
      && (forall i :: 0 <= i < |known| ==> r[i].code != -1)
  {
    var r := known + unknown;
    assert forall k :: 0 <= k < |known| ==> r[k] == known[k];
    assert forall k :: |known| <= k < |r| ==> r[k] == unknown[k - |known|];
  }

  lemma CodesAppend(a: seq<AgeCount>, b: seq<AgeCount>)
    ensures Codes(a + b) == Codes(a) + Codes(b)
  {
    var r := a + b;
    assert forall i :: 0 <= i < |r| ==> Codes(r)[i] == (Codes(a) + Codes(b))[i];
  }

  /** `prepare_employee_distribution_by_age_group`: `groupby("age_group").size()`, the
      labels made an ordered categorical over the six age categories, then sorted by it
      with missing values last.  The categories some filtered worker is in come first,
      each once, in category order, each with its number of workers; the groups whose
      label is no category come after them, in ascending label order, with code -1
      and their number of workers. */
  function AgeGroupDistribution(rows: seq<HrRow>, facility: Option<seq<string>>): (r: seq<AgeCount>)
    ensures forall i :: 0 <= i < |r| ==> -1 <= r[i].code < |HrAgeOrder| && r[i].counts >= 1
    ensures forall i, j :: 0 <= i < j < |r| && r[j].code != -1 ==> 0 <= r[i].code < r[j].code
    ensures forall i :: 0 <= i < |r| && r[i].code != -1 ==>
      r[i].counts == multiset(TextColumn(ByFacility(rows, facility), AgeGroup))[Some(Text(HrAgeOrder[r[i].code]))]
    ensures forall c :: 0 <= c < |HrAgeOrder| ==>
      (Some(Text(HrAgeOrder[c])) in TextColumn(ByFacility(rows, facility), AgeGroup) <==> c in Codes(r))
    ensures var others := OtherLabels(TextColumn(ByFacility(rows, facility), AgeGroup), HrAgeOrder);
      |others| <= |r|
      && (forall i :: 0 <= i < |r| - |others| ==> r[i].code != -1)
      && r[|r| - |others|..] == UnknownAges(others)
  {
    ByCategory(TextColumn(ByFacility(rows, facility), AgeGroup), HrAgeOrder)
  }

  // ---------------------------------------------------------------------
  // Percentage-of-whole tables
  // ---------------------------------------------------------------------

  /** `part / whole * 100`, missing (`NaN` in pandas) when the whole is 0. */
  function PercentOf(part: nat, whole: nat): (p: Option<real>)
    ensures whole == 0 <==> p.None?
    ensures whole > 0 && part <= whole ==> 0.0 <= p.value <= 100.0
  {
    if whole == 0 then None else Some(part as real / whole as real * 100.0)
  }

  /** The number of cells of a column that are not missing. */
  function Recorded(column: seq<Option<Key>>): nat
  {
    assert multiset(column)[None] <= |multiset(column)|;
    |column| - multiset(column)[None]
  }

  /** A row of a percentage table: the key, its count and its share of the whole. */
  datatype Share = Share(key: Key, count: nat, percent: Option<real>)

  /** The keys of a percentage table. */
  function ShareKeys(ss: seq<Share>): (r: seq<Key>)
    ensures |r| == |ss|
    ensures forall i :: 0 <= i < |ss| ==> r[i] == ss[i].key
  {
    if |ss| == 0 then [] else [ss[0].key] + ShareKeys(ss[1..])
  }

  /** Each group's share of `whole`. */
  function Shares(gs: seq<Group>, whole: nat): (r: seq<Share>)
    ensures |r| == |gs|
    ensures forall i :: 0 <= i < |gs| ==>
      r[i].key == gs[i].key && r[i].count == gs[i].total && r[i].percent == PercentOf(gs[i].total, whole)
  {
    if |gs| == 0 then []
    else [Share(gs[0].key, gs[0].total, PercentOf(gs[0].total, whole))] + Shares(gs[1..], whole)
  }

  /** The sum of a table's percentages, a missing one adding nothing. */
  function SumPercent(ss: seq<Share>): real
  {
    if |ss| == 0 then 0.0
    else (match ss[0].percent case Some(p) => p case None => 0.0) + SumPercent(ss[1..])
  }

  lemma {:induction false} SharesSum(gs: seq<Group>, whole: nat)
    requires whole > 0
    ensures SumPercent(Shares(gs, whole)) == Totals(gs) as real / whole as real * 100.0
  {
    if |gs| > 0 {
      SharesSum(gs[1..], whole);
      var ss := Shares(gs, whole);
      assert ss[1..] == Shares(gs[1..], whole);
      assert ss[0].percent == Some(gs[0].total as real / whole as real * 100.0);
      ShareAdd(gs[0].total as real, Totals(gs[1..]) as real, whole as real);
    }
  }

  lemma ShareAdd(a: real, b: real, w: real)
    requires w > 0.0
    ensures a / w * 100.0 + b / w * 100.0 == (a + b) / w * 100.0
  {
    var x, y := a / w, b / w;
    assert x * w == a && y * w == b;
    assert (x + y) * w == a + b;
  }

  lemma WholeShare(w: real)
    requires w > 0.0
    ensures w / w * 100.0 == 100.0
  {
  }

  /** `counts / counts.sum() * 100`: each group's share of the sum of all counts; the
      shares add up to 100 unless every count is 0, when they are all missing. */
  function Percentages(gs: seq<Group>): (r: seq<Share>)
    ensures |r| == |gs|
    ensures forall i :: 0 <= i < |gs| ==>
      r[i].key == gs[i].key && r[i].count == gs[i].total && r[i].percent == PercentOf(gs[i].total, Totals(gs))
    ensures Totals(gs) > 0 ==> SumPercent(r) == 100.0
    ensures Totals(gs) == 0 ==> forall i :: 0 <= i < |r| ==> r[i].percent.None?
  {
    var r := Shares(gs, Totals(gs));
    if Totals(gs) > 0 then
      SharesSum(gs, Totals(gs));
      WholeShare(Totals(gs) as real);
      r
    else r
  }

  /** `groupby(key).size()` with each count's percentage of all counted rows. */
  function CountShares(column: seq<Option<Key>>): (r: seq<Share>)
    ensures Ascending(ShareKeys(r))
    ensures forall k :: k in ShareKeys(r) <==> Some(k) in column
    ensures forall i :: 0 <= i < |r| ==>
      r[i].count == multiset(column)[Some(r[i].key)] >= 1
      && r[i].percent == PercentOf(r[i].count, Recorded(column))
    ensures |r| > 0 ==> SumPercent(r) == 100.0
  {
    var groups := GroupCount(column);
    var r := Percentages(groups);
    assert ShareKeys(r) == KeysOf(groups);
    assert |r| > 0 ==> Totals(groups) >= groups[0].total >= 1 by {
      if |r| > 0 {
        assert groups == [groups[0]] + groups[1..];
        TotalsCons(groups[0], groups[1..]);
      }
    }
    r
  }

  function Cadre(x: HrRow): Option<string> { x.1.cadre }

  predicate HasCadre(x: HrRow) { x.1.cadre.Some? }

  /** The cadre cells of the filtered rows. */
  function CadreColumn(rows: seq<HrRow>, facility: Option<seq<string>>): seq<Option<Key>>
  {
    TextColumn(ByFacility(rows, facility), Cadre)
  }

  /** `prepare_percentage_distribution_by_cadre`: one row per cadre of a filtered worker,
      ascending, with its number of workers and their percentage of all filtered workers
      whose cadre is recorded; for a table with any row the percentages add up to 100. */
  function CadrePercentages(rows: seq<HrRow>, facility: Option<seq<string>>): (r: seq<Share>)
    ensures Ascending(ShareKeys(r))
    ensures forall k :: k in ShareKeys(r) <==> Some(k) in CadreColumn(rows, facility)
    ensures forall i :: 0 <= i < |r| ==>
      r[i].count == multiset(CadreColumn(rows, facility))[Some(r[i].key)] >= 1
      && r[i].percent == PercentOf(r[i].count, Recorded(CadreColumn(rows, facility)))
    ensures |r| > 0 ==> SumPercent(r) == 100.0
  {
    CountShares(CadreColumn(rows, facility))
  }

  /** A row's percentage, `NaN` sorting after every number. */
  function ByPercent(s: Share): real
  {
    match s.percent
    case Some(p) => p
    case None => -1.0
  }

  /** The cadre chart: `sort_values("percentage", ascending=False).head(10)` of the cadre
      table.  At most ten cadres, largest share first, each a row of the cadre table, and
      no cadre left out has a larger share than one kept. */
  function TopCadres(rows: seq<HrRow>, facility: Option<seq<string>>): (r: seq<Share>)
    ensures |r| == if |CadrePercentages(rows, facility)| < 10 then |CadrePercentages(rows, facility)| else 10
    ensures Descending(r, ByPercent)
    ensures multiset(r) <= multiset(CadrePercentages(rows, facility))
    ensures forall x, y :: x in r && y in multiset(CadrePercentages(rows, facility)) - multiset(r) ==>
      ByPercent(y) <= ByPercent(x)
  {
    Top(CadrePercentages(rows, facility), ByPercent, 10)
  }

  lemma {:induction false} SumPercentAppend(a: seq<Share>, b: seq<Share>)
    ensures SumPercent(a + b) == SumPercent(a) + SumPercent(b)
  {
    if |a| == 0 {
      assert a + b == b;
    } else {
      assert (a + b)[1..] == a[1..] + b;
      SumPercentAppend(a[1..], b);
    }
  }

  function Reverse<T>(s: seq<T>): (r: seq<T>)
    ensures |r| == |s|
    ensures forall i :: 0 <= i < |s| ==> r[i] == s[|s| - 1 - i]
  {
    if |s| == 0 then [] else Reverse(s[1..]) + [s[0]]
  }

  /** Reversing a percentage table keeps its sum. */
  lemma {:induction false} SumPercentReverse(ss: seq<Share>)
    ensures SumPercent(Reverse(ss)) == SumPercent(ss)
  {
    if |ss| > 0 {
      SumPercentReverse(ss[1..]);
      SumPercentAppend(Reverse(ss[1..]), [ss[0]]);
      assert [ss[0]][1..] == [];
    }
  }

  function EmploymentType(x: HrRow): Option<string> { x.1.employmentType }

  predicate HasEmploymentType(x: HrRow) { x.1.employmentType.Some? }

  /** The employment-type cells of the filtered rows. */
  function TypeColumn(rows: seq<HrRow>, facility: Option<seq<string>>): seq<Option<Key>>
  {
    TextColumn(ByFacility(rows, facility), EmploymentType)
  }

  /** `prepare_employee_percentage_by_employment_type`: one row per employment type of a
      filtered worker with its number of workers and their percentage of all filtered
      workers whose type is recorded, sorted by type from last to first; for a table
      with any row the percentages add up to 100. */
  function EmploymentTypePercentages(rows: seq<HrRow>, facility: Option<seq<string>>): (r: seq<Share>)
    ensures forall i, j :: 0 <= i < j < |r| ==> KeyLess(r[j].key, r[i].key)
    ensures forall k :: k in ShareKeys(r) <==> Some(k) in TypeColumn(rows, facility)
    ensures forall i :: 0 <= i < |r| ==>
      r[i].count == multiset(TypeColumn(rows, facility))[Some(r[i].key)] >= 1
      && r[i].percent == PercentOf(r[i].count, Recorded(TypeColumn(rows, facility)))
    ensures |r| > 0 ==> SumPercent(r) == 100.0
  {
    DescendingCountShares(TypeColumn(rows, facility))
  }

  function DescendingCountShares(column: seq<Option<Key>>): (r: seq<Share>)
    ensures forall i, j :: 0 <= i < j < |r| ==> KeyLess(r[j].key, r[i].key)
    ensures forall k :: k in ShareKeys(r) <==> Some(k) in column
    ensures forall i :: 0 <= i < |r| ==>
      r[i].count == multiset(column)[Some(r[i].key)] >= 1
      && r[i].percent == PercentOf(r[i].count, Recorded(column))
    ensures |r| > 0 ==> SumPercent(r) == 100.0
  {
    DescendingKeys(column);
    ReversedCounts(column, CountShares(column), Reverse(CountShares(column)));
    SumPercentReverse(CountShares(column));
    Reverse(CountShares(column))
  }

  lemma DescendingKeys(column: seq<Option<Key>>)
    ensures var r := Reverse(CountShares(column));
      (forall i, j :: 0 <= i < j < |r| ==> KeyLess(r[j].key, r[i].key))
      && (forall k :: k in ShareKeys(r) <==> Some(k) in column)
  {
    ReversedKeys(CountShares(column), Reverse(CountShares(column)));
  }

  lemma ReversedCounts(column: seq<Option<Key>>, a: seq<Share>, r: seq<Share>)
    requires r == Reverse(a)
    requires forall i :: 0 <= i < |a| ==>
      a[i].count == multiset(column)[Some(a[i].key)] >= 1
      && a[i].percent == PercentOf(a[i].count, Recorded(column))
    ensures forall i :: 0 <= i < |r| ==>
      r[i].count == multiset(column)[Some(r[i].key)] >= 1
      && r[i].percent == PercentOf(r[i].count, Recorded(column))
  {
    forall i | 0 <= i < |r|
      ensures r[i].count == multiset(column)[Some(r[i].key)] >= 1
      ensures r[i].percent == PercentOf(r[i].count, Recorded(column))
    {
      assert r[i] == a[|a| - 1 - i];
    }
  }

  lemma ReversedKeys(a: seq<Share>, r: seq<Share>)
    requires Ascending(ShareKeys(a)) && r == Reverse(a)
    ensures forall i, j :: 0 <= i < j < |r| ==> KeyLess(r[j].key, r[i].key)
    ensures forall k :: k in ShareKeys(r) <==> k in ShareKeys(a)
  {
    forall k | k in ShareKeys(a) ensures k in ShareKeys(r) {
      ReversedKey(a, r, k);
    }
    forall k | k in ShareKeys(r) ensures k in ShareKeys(a) {
      var i :| 0 <= i < |r| && ShareKeys(r)[i] == k;
      assert ShareKeys(a)[|a| - 1 - i] == k;
    }
    forall i, j | 0 <= i < j < |r| ensures KeyLess(r[j].key, r[i].key) {
      assert ShareKeys(a)[|a| - 1 - j] == r[j].key && ShareKeys(a)[|a| - 1 - i] == r[i].key;
    }
  }

  lemma ReversedKey(a: seq<Share>, r: seq<Share>, k: Key)
    requires r == Reverse(a) && k in ShareKeys(a)
    ensures k in ShareKeys(r)
  {
    var i :| 0 <= i < |a| && ShareKeys(a)[i] == k;
    assert ShareKeys(r)[|r| - 1 - i] == k;
  }

  lemma {:induction false} ReverseReverse<T>(s: seq<T>)
    ensures Reverse(Reverse(s)) == s
  {
    var r := Reverse(Reverse(s));
    assert |r| == |s|;
    forall i | 0 <= i < |s| ensures r[i] == s[i] {
      assert r[i] == Reverse(s)[|s| - 1 - i];
    }
  }

  /** The stacked bar's segments: the employment-type table sorted again by type, now
      ascending.  Its keys being distinct and strictly descending, that sort reverses
      it, which gives back the grouped table in its original ascending order. */
  function StackedBarSegments(rows: seq<HrRow>, facility: Option<seq<string>>): (r: seq<Share>)
    ensures Ascending(ShareKeys(r))
    ensures multiset(r) == multiset(EmploymentTypePercentages(rows, facility))
    ensures r == CountShares(TypeColumn(rows, facility))
  {
    var ascending := CountShares(TypeColumn(rows, facility));
    ReverseReverse(ascending);
    var r := Reverse(EmploymentTypePercentages(rows, facility));
    ReverseMultiset(EmploymentTypePercentages(rows, facility));
    r
  }

  lemma {:induction false} ReverseMultiset<T>(s: seq<T>)
    ensures multiset(Reverse(s)) == multiset(s)
  {
    if |s| > 0 {
      ReverseMultiset(s[1..]);
      assert s == [s[0]] + s[1..];
    }
  }

  /** The weight of a row in `groupby("employment_type")["email"].count()`: 1 when it
      has an email. */
  function EmailEntries(rows: seq<HrRow>): (r: seq<Entry>)
    ensures |r| == |rows|
    ensures forall i :: 0 <= i < |rows| ==>
      r[i] == Entry(TextKey(rows[i].1.employmentType), if rows[i].0.email.Some? then 1 else 0)
  {
    if |rows| == 0 then []
    else [Entry(TextKey(rows[0].1.employmentType), if rows[0].0.email.Some? then 1 else 0)] + EmailEntries(rows[1..])
  }

  /** The number of rows of employment type `t` that carry an email. */
  function WorkersWithEmail(rows: seq<HrRow>, t: string): nat
  {
    if |rows| == 0 then 0
    else
      (if rows[0].1.employmentType == Some(t) && rows[0].0.email.Some? then 1 else 0)
      + WorkersWithEmail(rows[1..], t)
  }

  predicate HasTypeAndEmail(x: HrRow) { x.1.employmentType.Some? && x.0.email.Some? }

  lemma {:induction false} EmailEntriesSum(rows: seq<HrRow>, t: string)
    ensures SumFor(EmailEntries(rows), Text(t)) == WorkersWithEmail(rows, t)
  {
    if |rows| > 0 {
      EmailEntriesSum(rows[1..], t);
      assert EmailEntries(rows)[1..] == EmailEntries(rows[1..]);
    }
  }

  lemma {:induction false} EmailEntriesWeight(rows: seq<HrRow>)
    ensures PresentWeight(EmailEntries(rows)) == |Filter(rows, HasTypeAndEmail)|
  {
    if |rows| > 0 {
      EmailEntriesWeight(rows[1..]);
      assert EmailEntries(rows)[1..] == EmailEntries(rows[1..]);
    }
  }

  /** `prepare_emp_count_stackedbar`: one row per employment type of a filtered worker,
      ascending, counting the workers of that type whose email is recorded (possibly
      none), with their percentage of all filtered workers having both a type and an
      email; the percentages add up to 100 when there is such a worker, and are all
      missing when there is none. */
  function EmploymentStackedBar(rows: seq<HrRow>, facility: Option<seq<string>>): (r: seq<Share>)
    ensures Ascending(ShareKeys(r))
    ensures forall k :: k in ShareKeys(r) <==> Some(k) in TypeColumn(rows, facility)
    ensures forall i :: 0 <= i < |r| ==>
      r[i].key.Text? && r[i].count == WorkersWithEmail(ByFacility(rows, facility), r[i].key.text)
      && r[i].percent == PercentOf(r[i].count, |Filter(ByFacility(rows, facility), HasTypeAndEmail)|)
    ensures |Filter(ByFacility(rows, facility), HasTypeAndEmail)| > 0 ==> SumPercent(r) == 100.0
  {
    EmailShares(ByFacility(rows, facility))
  }

  /** The email counts by type of some rows, with their percentages of all the rows
      that have both a type and an email. */
  function EmailShares(filtered: seq<HrRow>): (r: seq<Share>)
    ensures Ascending(ShareKeys(r))
    ensures forall k :: k in ShareKeys(r) <==> Some(k) in TextColumn(filtered, EmploymentType)
    ensures forall i :: 0 <= i < |r| ==>
      r[i].key.Text? && r[i].count == WorkersWithEmail(filtered, r[i].key.text)
      && r[i].percent == PercentOf(r[i].count, |Filter(filtered, HasTypeAndEmail)|)
    ensures |Filter(filtered, HasTypeAndEmail)| > 0 ==> SumPercent(r) == 100.0
  {
    var groups := EmailCounts(filtered);
    var r := Percentages(groups);
    assert ShareKeys(r) == KeysOf(groups);
    r
  }

  /** `groupby("employment_type")["email"].count()`: ascending types, each with the
      number of its workers that carry an email; the counts add up to the workers that
      have both a type and an email. */
  function EmailCounts(filtered: seq<HrRow>): (r: seq<Group>)
    ensures Ascending(KeysOf(r))
    ensures forall k :: k in KeysOf(r) <==> Some(k) in TextColumn(filtered, EmploymentType)
    ensures forall i :: 0 <= i < |r| ==>
      r[i].key.Text? && r[i].total == WorkersWithEmail(filtered, r[i].key.text)
    ensures Totals(r) == |Filter(filtered, HasTypeAndEmail)|
  {
    var entries := EmailEntries(filtered);
    assert KeyColumn(entries) == TextColumn(filtered, EmploymentType);
    EmailEntriesWeight(filtered);
    var groups := GroupSum(entries);
    forall i | 0 <= i < |groups|
      ensures groups[i].key.Text? && groups[i].total == WorkersWithEmail(filtered, groups[i].key.text)
    {
      assert KeysOf(groups)[i] == groups[i].key;
      StackedCount(filtered, groups[i]);
    }
    groups
  }

  /** A group of the stacked bar counts the workers of its type that carry an email. */
  lemma StackedCount(filtered: seq<HrRow>, g: Group)
    requires Some(g.key) in TextColumn(filtered, EmploymentType)
    requires g.total == SumFor(EmailEntries(filtered), g.key)
    ensures g.key.Text? && g.total == WorkersWithEmail(filtered, g.key.text)
  {
    var column := TextColumn(filtered, EmploymentType);
    var j :| 0 <= j < |column| && column[j] == Some(g.key);
    EmailEntriesSum(filtered, g.key.text);
  }

  // ---------------------------------------------------------------------
  // The cadre treemap
  // ---------------------------------------------------------------------

  /** `fillna("Unknown")` on the cadre cell. */
  function CadreFilled(x: HrRow): Option<string>
  {
    Some(if x.1.cadre.Some? then x.1.cadre.value else "Unknown")
  }

  /** The filled cadre cells of the filtered rows. */
  function TreemapColumn(rows: seq<HrRow>, facility: Option<seq<string>>): seq<Option<Key>>
  {
    TextColumn(ByFacility(rows, facility), CadreFilled)
  }

  /** `groupby("cadre")["cadre"].transform("count")`: the value a row receives is the
      number of rows carrying its key. */
  function CountOf(column: seq<Option<Key>>): Option<Key> -> nat
  {
    v => multiset(column)[v]
  }

  /** The sum of the transformed column (`"Total No. of Health Workers".sum()`). */
  function TransformedSum(column: seq<Option<Key>>): nat
  {
    PresentWeight(Weighted(column, CountOf(column)))
  }

  function Squared(n: nat): nat { n * n }

  /** `groupby("cadre").agg({"Total No. of Health Workers": "sum"})`: one group per key,
      ascending, whose total is the sum of the transformed column over its rows, that is
      the square of its number of rows; the totals add up to the sum over all rows. */
  function TreemapGroups(column: seq<Option<Key>>): (r: seq<Group>)
    ensures Ascending(KeysOf(r))
    ensures forall k :: k in KeysOf(r) <==> Some(k) in column
    ensures forall i :: 0 <= i < |r| ==> r[i].total == Squared(multiset(column)[Some(r[i].key)])
    ensures Totals(r) == TransformedSum(column)
  {
    var entries := Weighted(column, CountOf(column));
    KeyColumnOfWeighted(column, CountOf(column));
    var groups := GroupSum(entries);
    forall i | 0 <= i < |groups|
      ensures groups[i].total == Squared(multiset(column)[Some(groups[i].key)])
    {
      SquareGroup(column, groups[i]);
    }
    groups
  }

  /** The grouped treemap table before sorting: the groups with each one's percentage of
      the sum over all rows; the percentages add up to 100 whenever that sum is not 0. */
  function TreemapTable(column: seq<Option<Key>>): (r: seq<Share>)
    ensures Ascending(ShareKeys(r))
    ensures forall k :: k in ShareKeys(r) <==> Some(k) in column
    ensures forall i :: 0 <= i < |r| ==>
      r[i].count == Squared(multiset(column)[Some(r[i].key)])
      && r[i].percent == PercentOf(r[i].count, TransformedSum(column))
    ensures TransformedSum(column) > 0 ==> SumPercent(r) == 100.0
  {
    var groups := TreemapGroups(column);
    var r := Percentages(groups);
    assert ShareKeys(r) == KeysOf(groups);
    r
  }

  /** A group of the treemap sums its rows' counts: its number of rows, squared. */
  lemma SquareGroup(column: seq<Option<Key>>, g: Group)
    requires g.total == SumFor(Weighted(column, CountOf(column)), g.key)
    ensures g.total == Squared(multiset(column)[Some(g.key)])
  {
    WeightedSum(column, CountOf(column), g.key);
  }

  /** A row's count as a sort score. */
  function ByCount(s: Share): real { s.count as real }

  /** `prepare_cadre_treemap_data`: the treemap table sorted by count, largest first,
      cut to ten rows; no row left out has a larger count than one kept. */
  function CadreTreemap(rows: seq<HrRow>, facility: Option<seq<string>>): (r: seq<Share>)
    ensures |r| == if |TreemapTable(TreemapColumn(rows, facility))| < 10
      then |TreemapTable(TreemapColumn(rows, facility))| else 10
    ensures Descending(r, ByCount)
    ensures multiset(r) <= multiset(TreemapTable(TreemapColumn(rows, facility)))
    ensures forall x, y :: x in r && y in multiset(TreemapTable(TreemapColumn(rows, facility))) - multiset(r) ==>
      ByCount(y) <= ByCount(x)
  {
    Top(TreemapTable(TreemapColumn(rows, facility)), ByCount, 10)
  }

  /** A filtered worker whose cadre is missing is counted under "Unknown". */
  lemma MissingCadreIsUnknown(rows: seq<HrRow>, facility: Option<seq<string>>, x: HrRow)
    requires x in ByFacility(rows, facility) && x.1.cadre.None?
    ensures Text("Unknown") in ShareKeys(TreemapTable(TreemapColumn(rows, facility)))
  {
    var filtered := ByFacility(rows, facility);
    var i :| 0 <= i < |filtered| && filtered[i] == x;
    assert TreemapColumn(rows, facility)[i] == Some(Text("Unknown"));
  }

  /** Every cell being filled, the treemap percentages add up to 100 as soon as one
      worker passes the filter. */
  lemma TreemapSumsTo100(rows: seq<HrRow>, facility: Option<seq<string>>)
    requires |ByFacility(rows, facility)| > 0
    ensures SumPercent(TreemapTable(TreemapColumn(rows, facility))) == 100.0
  {
    var column := TreemapColumn(rows, facility);
    assert column[0] in column;
    FirstWeight(column);
  }

  lemma FirstWeight(column: seq<Option<Key>>)
    requires |column| > 0 && column[0].Some?
    ensures TransformedSum(column) > 0
  {
    var entries := Weighted(column, CountOf(column));
    assert entries[0].weight == multiset(column)[column[0]] >= 1;
  }
}
