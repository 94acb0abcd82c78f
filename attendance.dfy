/** The attendance page: the clock-in table restricted either to the selected
    year or to the selected date range, then the number of different employees
    who clocked in on each date. */
module Attendance {
  import opened Tables
  import opened Grouping
  import opened Entities

  /** `if selected_year:`: a year is chosen when the dropdown holds a value other
      than 0 (Python reads `None` and `0` as false). */
  predicate YearChosen(year: Option<int>)
  {
    year.Some? && year.value != 0
  }

  function CardDate(t: Timecard): int { t.date }

  /** The rows of one calendar year. */
  function InYear(rows: seq<Timecard>, year: int): (r: seq<Timecard>)
    ensures forall x :: x in r <==> x in rows && x.year == year
    ensures forall x :: multiset(r)[x] == if x.year == year then multiset(rows)[x] else 0
  {
    Filter(rows, (x: Timecard) => x.year == year)
  }

  /** The filter of the attendance `update_charts`: with a year chosen, the whole table
      restricted to that year, whatever the date range says; otherwise the rows whose
      date lies in the range, both ends included. */
  function AttendanceRows(rows: seq<Timecard>, year: Option<int>, start: int, end: int): (r: seq<Timecard>)
    ensures YearChosen(year) ==> forall x :: x in r <==> x in rows && x.year == year.value
    ensures !YearChosen(year) ==> forall x :: x in r <==> x in rows && start <= x.date <= end
    ensures |r| <= |rows|
  {
    if YearChosen(year) then InYear(rows, year.value)
    else DateFilter(rows, CardDate, start, end)
  }

  /** Once a year is chosen, the date range has no effect. */
  lemma YearOverridesRange(rows: seq<Timecard>, year: Option<int>, start1: int, end1: int, start2: int, end2: int)
    requires YearChosen(year)
    ensures AttendanceRows(rows, year, start1, end1) == AttendanceRows(rows, year, start2, end2)
  {
  }

  /** The rows of one date. */
  function RowsOn(rows: seq<Timecard>, date: int): (r: seq<Timecard>)
    ensures forall x :: x in r <==> x in rows && x.date == date
  {
    Filter(rows, OnDate(date))
  }

  function OnDate(date: int): Timecard -> bool
  {
    (x: Timecard) => x.date == date
  }

  /** The number of rows of one date. */
  function RowCount(rows: seq<Timecard>, date: int): nat
  {
    |RowsOn(rows, date)|
  }

  /** The employee ids recorded on `date`, a missing id counting for nobody. */
  function EmployeesOn(rows: seq<Timecard>, date: int): (r: set<int>)
    ensures forall i :: 0 <= i < |rows| && rows[i].date == date && rows[i].employeeId.Some? ==>
      rows[i].employeeId.value in r
    ensures forall e :: e in r ==>
      exists i :: 0 <= i < |rows| && rows[i].date == date && rows[i].employeeId == Some(e)
  {
    if |rows| == 0 then {}
    else
      var rest := EmployeesOn(rows[1..], date);
      var here := if rows[0].date == date && rows[0].employeeId.Some? then {rows[0].employeeId.value} else {};
      assert forall e :: e in rest ==>
        exists i :: 1 <= i < |rows| && rows[i].date == date && rows[i].employeeId == Some(e) by {
        forall e | e in rest
          ensures exists i :: 1 <= i < |rows| && rows[i].date == date && rows[i].employeeId == Some(e)
        {
          var k :| 0 <= k < |rows[1..]| && rows[1..][k].date == date && rows[1..][k].employeeId == Some(e);
          assert rows[k + 1] == rows[1..][k];
        }
      }
      here + rest
  }

  /** Different employees on a date are never more than the rows of that date. */
  lemma {:induction false} EmployeesAtMostRows(rows: seq<Timecard>, date: int)
    ensures |EmployeesOn(rows, date)| <= RowCount(rows, date)
  {
    if |rows| > 0 {
      EmployeesAtMostRows(rows[1..], date);
      FilterCons(rows, OnDate(date));
    }
  }

  /** The date cells of the table as group-by keys. */
  function DateColumn(rows: seq<Timecard>): (r: seq<Option<Key>>)
    ensures |r| == |rows|
    ensures forall i :: 0 <= i < |rows| ==> r[i] == Some(Day(rows[i].date))
  {
    if |rows| == 0 then [] else [Some(Day(rows[0].date))] + DateColumn(rows[1..])
  }

  /** One point of the time series: a date and its number of different employees. */
  datatype Headcount = Headcount(date: int, employees: nat)

  function Dates(r: seq<Headcount>): (ds: seq<int>)
    ensures |ds| == |r|
    ensures forall i :: 0 <= i < |r| ==> ds[i] == r[i].date
  {
    if |r| == 0 then [] else [r[0].date] + Dates(r[1..])
  }

  /** One point per date key. */
  function Points(rows: seq<Timecard>, days: seq<Key>): (r: seq<Headcount>)
    requires forall i :: 0 <= i < |days| ==> days[i].Day?
    ensures |r| == |days|
    ensures forall i :: 0 <= i < |days| ==>
      r[i].date == days[i].day && r[i].employees == |EmployeesOn(rows, days[i].day)|
  {
    if |days| == 0 then []
    else [Headcount(days[0].day, |EmployeesOn(rows, days[0].day)|)] + Points(rows, days[1..])
  }

  /** The dates of the table as group keys, ascending, each once. */
  function DateKeys(rows: seq<Timecard>): (days: seq<Key>)
    ensures Ascending(days)
    ensures forall i :: 0 <= i < |days| ==> days[i].Day?
    ensures forall k :: k in days <==> Some(k) in DateColumn(rows)
  {
    var column := DateColumn(rows);
    var days := GroupKeys(column);
    forall i | 0 <= i < |days| ensures days[i].Day? {
      assert Some(days[i]) in column;
    }
    days
  }

  lemma PointsOrdered(rows: seq<Timecard>, days: seq<Key>)
    requires Ascending(days) && forall i :: 0 <= i < |days| ==> days[i].Day?
    ensures var r := Points(rows, days);
      forall i, j :: 0 <= i < j < |r| ==> r[i].date < r[j].date
  {
    var r := Points(rows, days);
    forall i, j | 0 <= i < j < |r| ensures r[i].date < r[j].date {
      assert KeyLess(days[i], days[j]);
    }
  }

  lemma PointsDates(rows: seq<Timecard>, days: seq<Key>)
    requires forall i :: 0 <= i < |days| ==> days[i].Day?
    ensures forall d :: d in Dates(Points(rows, days)) <==> Day(d) in days
  {
    var ds := Dates(Points(rows, days));
    forall d | Day(d) in days ensures d in ds {
      var i :| 0 <= i < |days| && days[i] == Day(d);
      assert ds[i] == d;
    }
  }

  /** Each point counts the different employees of its date, never more than the rows
      of that date. */
  predicate EmployeesCounted(rows: seq<Timecard>, r: seq<Headcount>)
  {
    forall i :: 0 <= i < |r| ==>
      r[i].employees == |EmployeesOn(rows, r[i].date)| <= RowCount(rows, r[i].date)
  }

  lemma PointsBounded(rows: seq<Timecard>, days: seq<Key>)
    requires forall i :: 0 <= i < |days| ==> days[i].Day?
    ensures EmployeesCounted(rows, Points(rows, days))
  {
    var r := Points(rows, days);
    forall i | 0 <= i < |r|
      ensures r[i].employees == |EmployeesOn(rows, r[i].date)| <= RowCount(rows, r[i].date)
    {
      EmployeesAtMostRows(rows, r[i].date);
    }
  }

  /** `groupby("date")["employee_id"].nunique()`: one point per date of the table, in
      increasing date order, each counting the different employee ids recorded that
      day, which is never more than the rows of that day. */
  function DailyHeadcount(rows: seq<Timecard>): (r: seq<Headcount>)
    ensures forall i, j :: 0 <= i < j < |r| ==> r[i].date < r[j].date
    ensures forall d :: d in Dates(r) <==> Some(Day(d)) in DateColumn(rows)
    ensures EmployeesCounted(rows, r)
  {
    var days := DateKeys(rows);
    PointsOrdered(rows, days);
    PointsDates(rows, days);
    PointsBounded(rows, days);
    Points(rows, days)
  }

  /** The attendance time series for the page's selections. */
  function AttendanceSeries(rows: seq<Timecard>, year: Option<int>, start: int, end: int): (r: seq<Headcount>)
    ensures YearChosen(year) ==> r == DailyHeadcount(InYear(rows, year.value))
    ensures !YearChosen(year) ==> r == DailyHeadcount(DateFilter(rows, CardDate, start, end))
    ensures !YearChosen(year) ==> forall i :: 0 <= i < |r| ==> start <= r[i].date <= end
  {
    var filtered := AttendanceRows(rows, year, start, end);
    var r := DailyHeadcount(filtered);
    forall i | 0 <= i < |r| && !YearChosen(year) ensures start <= r[i].date <= end {
      assert r[i].date in Dates(r);
      var j :| 0 <= j < |filtered| && DateColumn(filtered)[j] == Some(Day(r[i].date));
      assert filtered[j] in filtered;
    }
    r
  }

  /** The daily value counts employees, not rows: an employee clocking in twice on a
      day is counted once. */
  lemma CountsEmployeesNotRows(day: int, year: int)
    ensures EmployeesOn([Timecard(Some(1), day, year), Timecard(Some(1), day, year), Timecard(Some(2), day, year)], day) == {1, 2}
    ensures RowCount([Timecard(Some(1), day, year), Timecard(Some(1), day, year), Timecard(Some(2), day, year)], day) == 3
  {
    var rows := [Timecard(Some(1), day, year), Timecard(Some(1), day, year), Timecard(Some(2), day, year)];
    assert rows[1..][1..] == [Timecard(Some(2), day, year)];
    assert EmployeesOn(rows[1..][1..], day) == {2};
    assert EmployeesOn(rows[1..], day) == {1, 2};
    FilterKeepsAll(rows, OnDate(day));
  }
}
