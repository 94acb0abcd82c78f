/** The rows of the tables the dashboard loads.  Only the columns the
    aggregations read are kept; a cell that may be empty in the files is an
    `Option`.  Dates are day numbers, with the calendar year supplied as its
    own column where it is used. */
module Entities {
  import opened Tables
  import opened Grouping

  /** A row of the patients table. */
  datatype Patient = Patient(
    patientId: int,
    gender: Option<string>,
    maritalStatus: Option<string>,
    ageGroup: Option<string>,
    facilityName: Option<string>)

  /** A row of the visitations table; `timeIn` is the raw clock-in cell. */
  datatype Visit = Visit(patientId: int, startDate: int, timeIn: Option<string>)

  /** A row of the health-worker personal-data table. */
  datatype Personal = Personal(
    email: Option<string>,
    gender: Option<string>,
    disabilityStatus: Option<int>,
    ageGroup: Option<string>)

  /** A row of the health-worker employment table. */
  datatype Employment = Employment(
    email: Option<string>,
    qualification: Option<string>,
    cadre: Option<string>,
    employmentType: Option<string>,
    facilityStationed: Option<string>)

  /** A row of the clock-in (timecard) table. */
  datatype Timecard = Timecard(employeeId: Option<int>, date: int, year: int)

  /** A row of the states, LGAs, wards or facilities table: its id, its name and
      the id of the area it lies in. */
  datatype Area = Area(id: int, name: string, parentId: int)

  /** A text cell as a group-by key. */
  function TextKey(cell: Option<string>): (k: Option<Key>)
    ensures k.Some? <==> cell.Some?
    ensures cell.Some? ==> k.value == Text(cell.value)
  {
    match cell
    case None => None
    case Some(s) => Some(Text(s))
  }

  /** The column `f` of `rows` as group-by keys, row by row. */
  function TextColumn<T>(rows: seq<T>, f: T -> Option<string>): (r: seq<Option<Key>>)
    ensures |r| == |rows|
    ensures forall i :: 0 <= i < |rows| ==> r[i] == TextKey(f(rows[i]))
  {
    if |rows| == 0 then [] else [TextKey(f(rows[0]))] + TextColumn(rows[1..], f)
  }

  /** The labels of a fixed domain as keys. */
  function TextKeys(labels: seq<string>): (r: seq<Key>)
    ensures |r| == |labels|
    ensures forall i :: 0 <= i < |labels| ==> r[i] == Text(labels[i])
  {
    if |labels| == 0 then [] else [Text(labels[0])] + TextKeys(labels[1..])
  }

  /** Distinct labels give distinct keys. */
  lemma DistinctTextKeys(labels: seq<string>)
    requires forall i, j :: 0 <= i < j < |labels| ==> labels[i] != labels[j]
    ensures Distinct(TextKeys(labels))
  {
  }

  /** In a text column, the number of rows carrying a key is the number of rows whose
      cell holds that text. */
  lemma {:induction false} TextColumnCount<T(!new)>(rows: seq<T>, f: T -> Option<string>, v: string)
    ensures multiset(TextColumn(rows, f))[Some(Text(v))] == |Filter(rows, x => f(x) == Some(v))|
  {
    if |rows| > 0 {
      TextColumnCount(rows[1..], f, v);
      assert TextColumn(rows, f) == [TextKey(f(rows[0]))] + TextColumn(rows[1..], f);
    }
  }

  /** The patient age groups of the age charts, in display order. */
  const PatientAgeOrder: seq<string> := ["0-4", "5-9", "10-19", "20-29", "30-39", "40-49", "50-59", "60+"]

  /** `[col.value_counts().get(g, 0) for g in desired_order]`: one bar per age group,
      in axis order, each the number of rows in that group (0 for a group no row is
      in); the bars count no more rows than there are. */
  function AgeBuckets(column: seq<Option<Key>>): (r: seq<Group>)
    ensures |r| == |PatientAgeOrder|
    ensures forall i :: 0 <= i < |PatientAgeOrder| ==>
      r[i].key == Text(PatientAgeOrder[i]) && r[i].total == multiset(column)[Some(Text(PatientAgeOrder[i]))]
    ensures Totals(r) <= |column|
  {
    AgeOrderDistinct();
    LabelBuckets(column, PatientAgeOrder)
  }

  /** `Buckets` over a domain of labels. */
  function LabelBuckets(column: seq<Option<Key>>, labels: seq<string>): (r: seq<Group>)
    requires Distinct(TextKeys(labels))
    ensures |r| == |labels|
    ensures forall i :: 0 <= i < |labels| ==>
      r[i].key == Text(labels[i]) && r[i].total == multiset(column)[Some(Text(labels[i]))]
    ensures Totals(r) <= |column|
  {
    Buckets(column, TextKeys(labels))
  }

  /** The length and first character of a label. */
  function Shape(s: string): (int, char)
  {
    (|s|, if |s| > 0 then s[0] else ' ')
  }

  /** No age group is listed twice. */
  lemma AgeOrderDistinct()
    ensures Distinct(TextKeys(PatientAgeOrder))
  {
    // no two labels agree in both length and first character
    var shapes := seq(|PatientAgeOrder|, i requires 0 <= i < |PatientAgeOrder| => Shape(PatientAgeOrder[i]));
    assert shapes == [(3, '0'), (3, '5'), (5, '1'), (5, '2'), (5, '3'), (5, '4'), (5, '5'), (3, '6')];
    DistinctTextKeys(PatientAgeOrder);
  }
}
