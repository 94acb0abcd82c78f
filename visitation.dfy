/** The visitation page.  At start-up the patients table is joined with the
    visitations on `patient_id`; then the `time_in` column is rewritten as
    stripped text, an `hour` column is added with `parse_time`, and every row
    without an hour is dropped in place.  The page's charts then filter the
    prepared table by date range and facility and count its rows by marital
    status, by age group and by visit date. */
module Visitation {
  import opened Tables
  import opened Grouping
  import opened Ranking
  import opened Text
  import opened TimeParse
  import opened Entities

  /** A row of the joined table: the patient, the visit, the `time_in` cell and the
      `hour` cell (missing until it is computed). */
  datatype VisitRow = VisitRow(patient: Patient, visit: Visit, timeIn: Option<string>, hour: Option<nat>)

  /** `astype(str)` on one cell: a missing cell becomes the text `"nan"`. */
  function AsText(cell: Option<string>): (r: string)
    ensures cell.Some? ==> r == cell.value
    ensures cell.None? ==> r == "nan"
  {
    match cell
    case None => "nan"
    case Some(s) => s
  }

  /** The clock-in text of a visit once normalised: `str(time_in).strip()`. */
  function TimeText(v: Visit): string
  {
    Strip(AsText(v.timeIn))
  }

  /** A joined row before the `time_in` and `hour` columns are rewritten. */
  function Fresh(p: Patient, v: Visit): VisitRow
  {
    VisitRow(p, v, v.timeIn, None)
  }

  /** `pd.merge(patients, visitations, on="patient_id", how="inner")`, before the
      `time_in` and `hour` columns are rewritten: each patient and visit of the same
      id, once per pair of rows holding them. */
  function Joined(patients: seq<Patient>, visits: seq<Visit>): (r: seq<VisitRow>)
    ensures forall x :: x in r <==>
      x.patient in patients && x.visit in visits && x.patient.patientId == x.visit.patientId
      && x.timeIn == x.visit.timeIn && x.hour.None?
    ensures forall p, v :: multiset(r)[Fresh(p, v)] ==
                if p.patientId == v.patientId then multiset(patients)[p] * multiset(visits)[v] else 0
  {
    var pairs := InnerJoin(patients, visits, (p: Patient) => p.patientId, (v: Visit) => v.patientId);
    JoinedRows(pairs)
  }

  /** Each joined pair as a row of the table, in join order. */
  function JoinedRows(pairs: seq<(Patient, Visit)>): (r: seq<VisitRow>)
    ensures forall x :: x in r <==> x == Fresh(x.patient, x.visit) && (x.patient, x.visit) in pairs
    ensures forall p, v :: multiset(r)[Fresh(p, v)] == multiset(pairs)[(p, v)]
  {
    if |pairs| == 0 then []
    else
      assert pairs == [pairs[0]] + pairs[1..];
      [Fresh(pairs[0].0, pairs[0].1)] + JoinedRows(pairs[1..])
  }

  /** A joined row as it stands once set up: the stripped `time_in` text and its hour. */
  function Ready(p: Patient, v: Visit): VisitRow
  {
    VisitRow(p, v, Some(TimeText(v)), ParseTime(TimeText(v)))
  }

  predicate HasHour(x: VisitRow) { x.hour.Some? }

  /** Each joined row with its time normalised and its hour computed. */
  function ReadyRows(joined: seq<VisitRow>): (r: seq<VisitRow>)
    ensures |r| == |joined|
    ensures forall i :: 0 <= i < |joined| ==> r[i] == Ready(joined[i].patient, joined[i].visit)
  {
    if |joined| == 0 then [] else [Ready(joined[0].patient, joined[0].visit)] + ReadyRows(joined[1..])
  }

  /** The visitation table after set-up: the joined rows in join order, each with its
      normalised time and hour, keeping only those that have an hour.  A ready row of a
      patient and a visit of the same id occurs once per pair of rows holding them. */
  function Prepared(patients: seq<Patient>, visits: seq<Visit>): (r: seq<VisitRow>)
    ensures forall x :: x in r ==>
      x.patient in patients && x.visit in visits && x.patient.patientId == x.visit.patientId
      && x == Ready(x.patient, x.visit)
      && x.hour.Some? && x.hour.value <= 23
    ensures forall p, v :: multiset(r)[Ready(p, v)] ==
                if p.patientId == v.patientId && ParseTime(TimeText(v)).Some?
                then multiset(patients)[p] as int * multiset(visits)[v] else 0
  {
    PreparedMembers(patients, visits);
    PreparedCount(patients, visits);
    Filter(ReadyRows(Joined(patients, visits)), HasHour)
  }

  lemma PreparedMembers(patients: seq<Patient>, visits: seq<Visit>)
    ensures forall x :: x in Filter(ReadyRows(Joined(patients, visits)), HasHour) ==>
      x.patient in patients && x.visit in visits && x.patient.patientId == x.visit.patientId
      && x == Ready(x.patient, x.visit)
      && x.hour.Some? && x.hour.value <= 23
  {
    ReadyRowsFrom(patients, visits);
  }

  /** A patient and a visit of the same id have their row in the prepared table exactly
      when the visit's clock-in time reads as an hour. */
  lemma ReadyRowPresent(patients: seq<Patient>, visits: seq<Visit>, p: Patient, v: Visit)
    requires p in patients && v in visits && p.patientId == v.patientId
    ensures Ready(p, v) in Prepared(patients, visits) <==> ParseTime(TimeText(v)).Some?
  {
    var m := multiset(Prepared(patients, visits))[Ready(p, v)];
    assert multiset(patients)[p] >= 1 && multiset(visits)[v] >= 1;
    assert ParseTime(TimeText(v)).Some? ==> m == multiset(patients)[p] * multiset(visits)[v] >= 1;
    assert ParseTime(TimeText(v)).None? ==> m == 0;
  }

  lemma PreparedCount(patients: seq<Patient>, visits: seq<Visit>)
    ensures forall p, v :: multiset(Filter(ReadyRows(Joined(patients, visits)), HasHour))[Ready(p, v)] ==
                if p.patientId == v.patientId && ParseTime(TimeText(v)).Some?
                then multiset(patients)[p] as int * multiset(visits)[v] else 0
  {
    ReadyJoinedCount(patients, visits);
    forall p, v ensures multiset(Filter(ReadyRows(Joined(patients, visits)), HasHour))[Ready(p, v)] ==
                          if p.patientId == v.patientId && ParseTime(TimeText(v)).Some?
                          then multiset(patients)[p] as int * multiset(visits)[v] else 0
    {
      PreparedPair(patients, visits, p, v);
    }
  }

  lemma ReadyJoinedCount(patients: seq<Patient>, visits: seq<Visit>)
    ensures forall p, v :: multiset(ReadyRows(Joined(patients, visits)))[Ready(p, v)] == multiset(Joined(patients, visits))[Fresh(p, v)]
  {
    var joined := Joined(patients, visits);
    assert forall x :: x in joined ==> x == Fresh(x.patient, x.visit);
    ReadyRowsCount(joined);
  }

  lemma PreparedPair(patients: seq<Patient>, visits: seq<Visit>, p: Patient, v: Visit)
    requires multiset(ReadyRows(Joined(patients, visits)))[Ready(p, v)] == multiset(Joined(patients, visits))[Fresh(p, v)]
    ensures multiset(Filter(ReadyRows(Joined(patients, visits)), HasHour))[Ready(p, v)] ==
              if p.patientId == v.patientId && ParseTime(TimeText(v)).Some?
              then multiset(patients)[p] as int * multiset(visits)[v] else 0
  {
    var x := Ready(p, v);
    var ready := ReadyRows(Joined(patients, visits));
    assert multiset(Filter(ready, HasHour))[x] == if HasHour(x) then multiset(ready)[x] else 0;
  }

  /** Making rows ready keeps how often each patient and visit occur. */
  lemma {:induction false} ReadyRowsCount(joined: seq<VisitRow>)
    requires forall x :: x in joined ==> x == Fresh(x.patient, x.visit)
    ensures forall p, v :: multiset(ReadyRows(joined))[Ready(p, v)] == multiset(joined)[Fresh(p, v)]
  {
    if |joined| > 0 {
      var rest := joined[1..];
      assert joined == [joined[0]] + rest;
      assert forall x :: x in rest ==> x in joined;
      ReadyRowsCount(rest);
      forall p, v ensures multiset(ReadyRows(joined))[Ready(p, v)] == multiset(joined)[Fresh(p, v)] {
        ReadyRowCount(joined, p, v);
      }
    }
  }

  lemma ReadyRowCount(joined: seq<VisitRow>, p: Patient, v: Visit)
    requires |joined| > 0 && joined[0] == Fresh(joined[0].patient, joined[0].visit)
    requires multiset(ReadyRows(joined[1..]))[Ready(p, v)] == multiset(joined[1..])[Fresh(p, v)]
    ensures multiset(ReadyRows(joined))[Ready(p, v)] == multiset(joined)[Fresh(p, v)]
  {
    var rest := joined[1..];
    assert joined == [joined[0]] + rest;
    assert multiset(ReadyRows(joined))[Ready(p, v)]
        == multiset([Ready(joined[0].patient, joined[0].visit)])[Ready(p, v)] + multiset(ReadyRows(rest))[Ready(p, v)];
    assert multiset(joined)[Fresh(p, v)] == multiset([joined[0]])[Fresh(p, v)] + multiset(rest)[Fresh(p, v)];
  }

  lemma ReadyRowsFrom(patients: seq<Patient>, visits: seq<Visit>)
    ensures forall x :: x in ReadyRows(Joined(patients, visits)) ==>
      x.patient in patients && x.visit in visits && x.patient.patientId == x.visit.patientId
      && x == Ready(x.patient, x.visit)
  {
    var joined := Joined(patients, visits);
    var ready := ReadyRows(joined);
    forall x | x in ready
      ensures x.patient in patients && x.visit in visits && x.patient.patientId == x.visit.patientId
    {
      var i :| 0 <= i < |ready| && ready[i] == x;
      assert joined[i] in joined;
    }
  }

  /** Every row of the prepared table has an hour of the day. */
  lemma PreparedRowsHaveHours(patients: seq<Patient>, visits: seq<Visit>)
    ensures forall i :: 0 <= i < |Prepared(patients, visits)| ==>
      Prepared(patients, visits)[i].hour.Some? && Prepared(patients, visits)[i].hour.value <= 23
  {
    var r := Prepared(patients, visits);
    forall i | 0 <= i < |r| ensures r[i].hour.Some? && r[i].hour.value <= 23 {
      assert r[i] in r;
    }
  }

  /** A visit whose `time_in` neither format reads is gone from the prepared table
      altogether, whatever else the row holds. */
  lemma UnreadableTimeDropsVisit(patients: seq<Patient>, visits: seq<Visit>, v: Visit)
    requires ParseTime(TimeText(v)).None?
    ensures forall x :: x in Prepared(patients, visits) ==> x.visit != v
  {
  }

  /** The joined table while it is being set up: the module-level data frame whose
      columns the start-up code rewrites in place. */
  class VisitationTable {
    var rows: seq<VisitRow>

    /** The inner join of patients and visits on `patient_id`. */
    constructor (patients: seq<Patient>, visits: seq<Visit>)
      ensures rows == Joined(patients, visits)
    {
      rows := Joined(patients, visits);
    }

    /** `df["time_in"] = df["time_in"].astype(str).str.strip()`. */
    method NormaliseTimes()
      modifies this
      ensures |rows| == |old(rows)|
      ensures forall i :: 0 <= i < |rows| ==>
        rows[i] == old(rows)[i].(timeIn := Some(Strip(AsText(old(rows)[i].timeIn))))
    {
      var current := rows;
      rows := seq(|current|, i requires 0 <= i < |current| =>
        current[i].(timeIn := Some(Strip(AsText(current[i].timeIn)))));
    }

    /** `df["hour"] = df["time_in"].apply(parse_time)`. */
    method AddHours()
      modifies this
      ensures |rows| == |old(rows)|
      ensures forall i :: 0 <= i < |rows| ==>
        rows[i] == old(rows)[i].(hour := ParseTime(AsText(old(rows)[i].timeIn)))
    {
      var current := rows;
      rows := seq(|current|, i requires 0 <= i < |current| =>
        current[i].(hour := ParseTime(AsText(current[i].timeIn))));
    }

    /** `df.dropna(subset=["hour"], inplace=True)`. */
    method DropMissingHours()
      modifies this
      ensures rows == Filter(old(rows), HasHour)
    {
      rows := Filter(rows, HasHour);
    }
  }

  /** The start-up sequence: join, normalise `time_in`, add `hour`, drop rows without
      an hour.  The resulting table is the prepared table. */
  method LoadVisitations(patients: seq<Patient>, visits: seq<Visit>) returns (t: VisitationTable)
    ensures fresh(t)
    ensures t.rows == Prepared(patients, visits)
  {
    t := new VisitationTable(patients, visits);
    ghost var joined := t.rows;
    assert forall i :: 0 <= i < |joined| ==> joined[i].timeIn == joined[i].visit.timeIn by {
      forall i | 0 <= i < |joined| ensures joined[i].timeIn == joined[i].visit.timeIn {
        assert joined[i] in joined;
      }
    }
    t.NormaliseTimes();
    ghost var normalised := t.rows;
    t.AddHours();
    SetUpIsReady(joined, normalised, t.rows);
    t.DropMissingHours();
  }

  /** Normalising `time_in`, then computing `hour` from it, makes each joined row ready. */
  lemma SetUpIsReady(joined: seq<VisitRow>, normalised: seq<VisitRow>, hours: seq<VisitRow>)
    requires forall i :: 0 <= i < |joined| ==> joined[i].timeIn == joined[i].visit.timeIn
    requires |normalised| == |joined|
    requires forall i :: 0 <= i < |normalised| ==>
      normalised[i] == joined[i].(timeIn := Some(Strip(AsText(joined[i].timeIn))))
    requires |hours| == |normalised|
    requires forall i :: 0 <= i < |hours| ==>
      hours[i] == normalised[i].(hour := ParseTime(AsText(normalised[i].timeIn)))
    ensures hours == ReadyRows(joined)
  {
    forall i | 0 <= i < |hours| ensures hours[i] == ReadyRows(joined)[i] {
      assert normalised[i].timeIn == Some(TimeText(joined[i].visit));
    }
  }

  // ---------------------------------------------------------------------
  // The page's filters and counts
  // ---------------------------------------------------------------------

  function StartDate(x: VisitRow): int { x.visit.startDate }

  function FacilityName(x: VisitRow): Option<string> { x.patient.facilityName }

  /** The rows the charts count: visit date within `[start, end]`, then, if any
      facility is selected, the patient's facility among the selected ones. */
  function InWindow(rows: seq<VisitRow>, facilities: Option<seq<string>>, start: int, end: int): (r: seq<VisitRow>)
    ensures forall x :: x in r <==>
      x in rows && start <= x.visit.startDate <= end
      && (Selected(facilities) ==> InSelection(x.patient.facilityName, facilities.value))
    ensures forall x :: multiset(r)[x] ==
                if start <= x.visit.startDate <= end
                   && (Selected(facilities) ==> InSelection(x.patient.facilityName, facilities.value))
                then multiset(rows)[x] else 0
    ensures |r| <= |rows|
  {
    DateThenFacility(rows, StartDate, start, end, FacilityName, facilities);
    FacilityFilter(DateFilter(rows, StartDate, start, end), FacilityName, facilities)
  }

  /** `marital_status.fillna("Unknown")`. */
  function MaritalCell(x: VisitRow): Option<string>
  {
    match x.patient.maritalStatus
    case None => Some("Unknown")
    case Some(s) => Some(s)
  }

  /** `filtered["marital_status"].fillna("Unknown").value_counts()`: one row per status,
      largest count first; each count is the number of rows with that status (a missing
      status counting as "Unknown"), and together they count every row. */
  function MaritalCounts(rows: seq<VisitRow>): (r: seq<Group>)
    ensures Descending(r, ByTotal)
    ensures forall k :: k in KeysOf(r) <==> Some(k) in TextColumn(rows, MaritalCell)
    ensures forall i :: 0 <= i < |r| ==> r[i].total == multiset(TextColumn(rows, MaritalCell))[Some(r[i].key)] >= 1
    ensures Totals(r) == |rows|
  {
    var column := TextColumn(rows, MaritalCell);
    assert None !in column;
    ValueCounts(column)
  }

  /** A missing marital status is counted under "Unknown". */
  lemma MissingStatusIsUnknown(rows: seq<VisitRow>, x: VisitRow)
    requires x in rows && x.patient.maritalStatus.None?
    ensures Text("Unknown") in KeysOf(MaritalCounts(rows))
  {
    var i :| 0 <= i < |rows| && rows[i] == x;
    assert TextColumn(rows, MaritalCell)[i] == Some(Text("Unknown"));
  }

  function AgeCell(x: VisitRow): Option<string> { x.patient.ageGroup }

  /** `{age: value_counts().get(age, 0) for age in desired_order}`: exactly the eight
      age groups in display order, each with the number of rows in it (0 for a group no
      row falls in); together at most the number of rows. */
  function AgeHistogram(rows: seq<VisitRow>): (r: seq<Group>)
    ensures |r| == 8
    ensures forall i :: 0 <= i < 8 ==>
      r[i].key == Text(PatientAgeOrder[i]) && r[i].total == multiset(TextColumn(rows, AgeCell))[Some(Text(PatientAgeOrder[i]))]
    ensures Totals(r) <= |rows|
  {
    AgeBuckets(TextColumn(rows, AgeCell))
  }

  /** What `update_charts` produces: nothing when no row passes the filters, otherwise
      the marital-status counts and the age-group histogram. */
  datatype Charts = NoData | Charts(marital: seq<Group>, ageGroups: seq<Group>)

  function VisitationCharts(rows: seq<VisitRow>, facilities: Option<seq<string>>, start: int, end: int): (r: Charts)
    ensures r.NoData? <==> |InWindow(rows, facilities, start, end)| == 0
    ensures r.Charts? ==>
      r.marital == MaritalCounts(InWindow(rows, facilities, start, end))
      && r.ageGroups == AgeHistogram(InWindow(rows, facilities, start, end))
      && Totals(r.marital) == |InWindow(rows, facilities, start, end)|
  {
    var filtered := InWindow(rows, facilities, start, end);
    if |filtered| == 0 then NoData
    else Charts(MaritalCounts(filtered), AgeHistogram(filtered))
  }

  /** Visit dates as group-by keys. */
  function DayColumn(rows: seq<VisitRow>): (r: seq<Option<Key>>)
    ensures |r| == |rows|
    ensures forall i :: 0 <= i < |rows| ==> r[i] == Some(Day(rows[i].visit.startDate))
  {
    if |rows| == 0 then [] else [Some(Day(rows[0].visit.startDate))] + DayColumn(rows[1..])
  }

  /** `update_chart`: `groupby("start_date").size()` over the filtered rows.  The dates
      are ascending, each within the selected range, each with the number of visits that
      day; together they count every filtered visit. */
  function VisitationVolume(rows: seq<VisitRow>, facilities: Option<seq<string>>, start: int, end: int): (r: seq<Group>)
    ensures Ascending(KeysOf(r))
    ensures forall i :: 0 <= i < |r| ==> r[i].key.Day? && start <= r[i].key.day <= end
    ensures forall i :: 0 <= i < |r| ==>
      r[i].total == multiset(DayColumn(InWindow(rows, facilities, start, end)))[Some(r[i].key)] >= 1
    ensures Totals(r) == |InWindow(rows, facilities, start, end)|
  {
    var filtered := InWindow(rows, facilities, start, end);
    DaysInRange(filtered, start, end);
    DayCounts(filtered)
  }

  /** `groupby("start_date").size()`: one row per visit date, ascending, with the number
      of visits that day; together they count every visit. */
  function DayCounts(rows: seq<VisitRow>): (r: seq<Group>)
    ensures Ascending(KeysOf(r))
    ensures forall i :: 0 <= i < |r| ==> r[i].total == multiset(DayColumn(rows))[Some(r[i].key)] >= 1
    ensures forall i :: 0 <= i < |r| ==> Some(r[i].key) in DayColumn(rows)
    ensures Totals(r) == |rows|
  {
    var column := DayColumn(rows);
    assert None !in column;
    GroupCount(column)
  }

  lemma DaysInRange(rows: seq<VisitRow>, start: int, end: int)
    requires forall x :: x in rows ==> start <= x.visit.startDate <= end
    ensures forall k :: Some(k) in DayColumn(rows) ==> k.Day? && start <= k.day <= end
  {
    var column := DayColumn(rows);
    forall k: Key | Some(k) in column ensures k.Day? && start <= k.day <= end {
      var j :| 0 <= j < |column| && column[j] == Some(k);
      assert rows[j] in rows;
    }
  }
}
