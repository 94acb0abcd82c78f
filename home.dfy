/** The home page's headline indicators: the number of patients and health
    workers, the patients of each gender and marital status, the workers living
    with a disability, their percentages, and the fixed-axis age-group and
    marital-status series of the registered and the visiting patients. */
module Home {
  import opened Tables
  import opened Grouping
  import opened Entities
  import opened Text

  // ---------------------------------------------------------------------
  // Counting with `query('col in [...]')`
  // ---------------------------------------------------------------------

  /** `df.query('col in [v1, v2]').shape[0]` on a text column: the cells equal to one
      of the listed strings; a missing cell equals none of them. */
  function QueryCount(column: seq<Option<Key>>, values: set<string>): (n: nat)
    ensures n <= |column|
  {
    if |column| == 0 then 0
    else
      (if column[0].Some? && column[0].value.Text? && column[0].value.text in values then 1 else 0)
      + QueryCount(column[1..], values)
  }

  /** Listing two disjoint sets of strings counts the cells of each. */
  lemma {:induction false} QueryCountUnion(column: seq<Option<Key>>, a: set<string>, b: set<string>)
    requires a !! b
    ensures QueryCount(column, a + b) == QueryCount(column, a) + QueryCount(column, b)
  {
    if |column| > 0 {
      QueryCountUnion(column[1..], a, b);
    }
  }

  /** Listing one string counts the cells holding it: the count `value_counts()` has for it. */
  lemma {:induction false} QueryCountOne(column: seq<Option<Key>>, v: string)
    ensures QueryCount(column, {v}) == multiset(column)[Some(Text(v))]
  {
    if |column| > 0 {
      QueryCountOne(column[1..], v);
      assert column == [column[0]] + column[1..];
    }
  }

  /** Two queries over disjoint lists never count more cells than there are rows. */
  lemma DisjointQueries(column: seq<Option<Key>>, a: set<string>, b: set<string>)
    requires a !! b
    ensures QueryCount(column, a) + QueryCount(column, b) <= |column|
  {
    QueryCountUnion(column, a, b);
  }

  const MaleLabels: set<string> := {"male", "Male"}
  const FemaleLabels: set<string> := {"female", "Female"}
  const MarriedLabels: set<string> := {"married", "Married"}
  const SingleLabels: set<string> := {"single", "Single"}

  /** `p` is `count` as a percentage of `total`, a zero total giving 0. */
  predicate PercentOfTotal(p: real, count: nat, total: nat)
  {
    (total == 0 ==> p == 0.0) && (total > 0 ==> p * total as real == count as real * 100.0)
  }

  /** `(count / total) * 100 if total > 0 else 0`. */
  function Percentage(count: nat, total: nat): (r: real)
    ensures PercentOfTotal(r, count, total)
    ensures count <= total ==> 0.0 <= r <= 100.0
  {
    if total > 0 then count as real / total as real * 100.0 else 0.0
  }

  /** Percentages of one total add up like their counts. */
  lemma PercentageAdds(a: nat, b: nat, total: nat)
    ensures Percentage(a, total) + Percentage(b, total) == Percentage(a + b, total)
  {
    if total > 0 {
      var t := total as real;
      assert (a + b) as real == a as real + b as real;
      assert (a as real + b as real) / t == a as real / t + b as real / t;
    }
  }

  /** `"{:,}".format(n)`, read back: the digits left after dropping the commas spell `n`. */
  function Formatted(n: nat): (s: string)
    ensures AllDigits(DropCommas(s)) && DigitsValue(DropCommas(s)) == n
    ensures forall i :: 0 <= i < |s| ==> (s[i] == ',' <==> (|s| - i) % 4 == 0)
  {
    ThousandsRoundTrip(n);
    Thousands(n)
  }

  // ---------------------------------------------------------------------
  // Patient indicators
  // ---------------------------------------------------------------------

  function Gender(p: Patient): Option<string> { p.gender }

  function MaritalStatus(p: Patient): Option<string> { p.maritalStatus }

  function PatientAge(p: Patient): Option<string> { p.ageGroup }

  /** The patient cards of the home page. */
  datatype PatientCards = PatientCards(
    total: nat, totalText: string,
    male: nat, female: nat, malePercent: real, femalePercent: real,
    married: nat, single: nat, marriedText: string, singleText: string)

  /** `total_patients`, the gender counts over `"male"`/`"Male"` and
      `"female"`/`"Female"` with their percentages of the total, and the marital
      counts over `"married"`/`"Married"` and `"single"`/`"Single"`, formatted. */
  function PatientIndicators(patients: seq<Patient>): (r: PatientCards)
    ensures r.total == |patients|
    ensures AllDigits(DropCommas(r.totalText)) && DigitsValue(DropCommas(r.totalText)) == |patients|
    ensures r.male == QueryCount(TextColumn(patients, Gender), MaleLabels)
    ensures r.female == QueryCount(TextColumn(patients, Gender), FemaleLabels)
    ensures r.male + r.female <= r.total
    ensures r.malePercent + r.femalePercent <= 100.0
    ensures PercentOfTotal(r.malePercent, r.male, r.total)
    ensures PercentOfTotal(r.femalePercent, r.female, r.total)
    ensures r.married == QueryCount(TextColumn(patients, MaritalStatus), MarriedLabels)
    ensures r.single == QueryCount(TextColumn(patients, MaritalStatus), SingleLabels)
    ensures r.married + r.single <= r.total
    ensures AllDigits(DropCommas(r.marriedText)) && DigitsValue(DropCommas(r.marriedText)) == r.married
    ensures AllDigits(DropCommas(r.singleText)) && DigitsValue(DropCommas(r.singleText)) == r.single
  {
    var genders := TextColumn(patients, Gender);
    var statuses := TextColumn(patients, MaritalStatus);
    var total := |patients|;
    var male := QueryCount(genders, MaleLabels);
    var female := QueryCount(genders, FemaleLabels);
    var married := QueryCount(statuses, MarriedLabels);
    var single := QueryCount(statuses, SingleLabels);
    DisjointQueries(genders, MaleLabels, FemaleLabels);
    DisjointQueries(statuses, MarriedLabels, SingleLabels);
    PercentageAdds(male, female, total);
    PatientCards(total, Formatted(total),
      male, female, Percentage(male, total), Percentage(female, total),
      married, single, Formatted(married), Formatted(single))
  }

  /** The indicator counts only the two listed spellings: a patient recorded as
      `"MALE"` is neither male nor female. */
  lemma OtherSpellingUncounted(patients: seq<Patient>, p: Patient)
    requires p.gender == Some("MALE")
    ensures PatientIndicators(patients + [p]).male == PatientIndicators(patients).male
    ensures PatientIndicators(patients + [p]).female == PatientIndicators(patients).female
  {
    var before := TextColumn(patients, Gender);
    var after := TextColumn(patients + [p], Gender);
    assert after == before + [Some(Text("MALE"))];
    assert "MALE" !in MaleLabels && "MALE" !in FemaleLabels;
    assert QueryCount([Some(Text("MALE"))], MaleLabels) == 0 == QueryCount([Some(Text("MALE"))], FemaleLabels);
    QueryCountAppend(before, Some(Text("MALE")), MaleLabels);
    QueryCountAppend(before, Some(Text("MALE")), FemaleLabels);
  }

  lemma {:induction false} QueryCountAppend(column: seq<Option<Key>>, cell: Option<Key>, values: set<string>)
    ensures QueryCount(column + [cell], values)
      == QueryCount(column, values) + QueryCount([cell], values)
  {
    if |column| > 0 {
      assert (column + [cell])[1..] == column[1..] + [cell];
      QueryCountAppend(column[1..], cell, values);
    } else {
      assert column + [cell] == [cell];
    }
  }

  // ---------------------------------------------------------------------
  // Health-worker indicators
  // ---------------------------------------------------------------------

  /** The worker cards of the home page. */
  datatype WorkerCards = WorkerCards(total: nat, totalText: string, disabled: nat, disabledPercent: real)

  predicate LivesWithDisability(p: Personal) { p.disabilityStatus == Some(1) }

  /** The workers whose `disability_status` is 1, in table order, each as often as the
      table holds it. */
  function DisabledWorkers(personal: seq<Personal>): (r: seq<Personal>)
    ensures |r| <= |personal|
    ensures forall p :: p in r <==> p in personal && p.disabilityStatus == Some(1)
    ensures forall p :: multiset(r)[p] == if p.disabilityStatus == Some(1) then multiset(personal)[p] else 0
  {
    Filter(personal, LivesWithDisability)
  }

  /** `total_employees`, the workers whose `disability_status` is 1 (a missing status is
      not 1) and their percentage of all workers, 0 when there are none. */
  function WorkerIndicators(personal: seq<Personal>): (r: WorkerCards)
    ensures r.total == |personal|
    ensures AllDigits(DropCommas(r.totalText)) && DigitsValue(DropCommas(r.totalText)) == |personal|
    ensures r.disabled == |DisabledWorkers(personal)| <= r.total
    ensures 0.0 <= r.disabledPercent <= 100.0
    ensures PercentOfTotal(r.disabledPercent, r.disabled, r.total)
  {
    var disabled := |DisabledWorkers(personal)|;
    WorkerCards(|personal|, Formatted(|personal|), disabled, Percentage(disabled, |personal|))
  }

  // ---------------------------------------------------------------------
  // Fixed-axis series
  // ---------------------------------------------------------------------

  /** The marital statuses on the x axis, in order. */
  const MaritalAxis: seq<string> := ["Single", "Married"]

  /** `[col.value_counts().get(s, 0) for s in ["Single", "Married"]]`: exactly two bars,
      counting the cells spelled exactly `"Single"` and `"Married"`. */
  function MaritalSeries(column: seq<Option<Key>>): (r: seq<Group>)
    ensures |r| == 2
    ensures r[0].key == Text("Single") && r[0].total == QueryCount(column, {"Single"})
    ensures r[1].key == Text("Married") && r[1].total == QueryCount(column, {"Married"})
    ensures Totals(r) <= |column|
  {
    DistinctTextKeys(MaritalAxis);
    QueryCountOne(column, "Single");
    QueryCountOne(column, "Married");
    Buckets(column, TextKeys(MaritalAxis))
  }

  /** The marital bars match the case exactly while the marital card accepts both
      spellings: one patient recorded as `"single"` counts as single on the card and
      in neither bar. */
  lemma MaritalCaseMismatch()
    ensures var patients := [Patient(1, None, Some("single"), None, None)];
      PatientIndicators(patients).single == 1
      && MaritalSeries(TextColumn(patients, MaritalStatus))[0].total == 0
      && MaritalSeries(TextColumn(patients, MaritalStatus))[1].total == 0
  {
    var patients := [Patient(1, None, Some("single"), None, None)];
    var column := TextColumn(patients, MaritalStatus);
    assert column == [Some(Text("single"))];
    assert column[1..] == [];
  }

  // ---------------------------------------------------------------------
  // Visiting patients
  // ---------------------------------------------------------------------

  function VisitPatientId(v: Visit): int { v.patientId }

  function PatientId(p: Patient): int { p.patientId }

  /** `pd.merge(visitation_df, patients_df, on="patient_id")`: every row pairs a visit
      with a patient of the same id, and every such pair is a row, once per pair of
      rows holding it. */
  function PatientVisits(visits: seq<Visit>, patients: seq<Patient>): (r: seq<(Visit, Patient)>)
    ensures forall x :: x in r <==> x.0 in visits && x.1 in patients && x.0.patientId == x.1.patientId
    ensures forall v, p :: multiset(r)[(v, p)] ==
                if v.patientId == p.patientId then multiset(visits)[v] as int * multiset(patients)[p] else 0
  {
    InnerJoin(visits, patients, VisitPatientId, PatientId)
  }

  function VisitGender(x: (Visit, Patient)): Option<string> { x.1.gender }

  function VisitAge(x: (Visit, Patient)): Option<string> { x.1.ageGroup }

  function VisitMarital(x: (Visit, Patient)): Option<string> { x.1.maritalStatus }

  /** `v_male_patients` and `v_female_patients`: the visits of male and of female
      patients, never more together than the joined visits. */
  function VisitGenders(visits: seq<Visit>, patients: seq<Patient>): (r: (nat, nat))
    ensures r.0 == QueryCount(TextColumn(PatientVisits(visits, patients), VisitGender), MaleLabels)
    ensures r.1 == QueryCount(TextColumn(PatientVisits(visits, patients), VisitGender), FemaleLabels)
    ensures r.0 + r.1 <= |PatientVisits(visits, patients)|
  {
    var column := TextColumn(PatientVisits(visits, patients), VisitGender);
    DisjointQueries(column, MaleLabels, FemaleLabels);
    (QueryCount(column, MaleLabels), QueryCount(column, FemaleLabels))
  }

  /** A visit whose patient id is in no patient row adds nothing to the joined table,
      so nothing to the visiting patients' counts and series. */
  lemma UnmatchedVisitIgnored(visits: seq<Visit>, v: Visit, patients: seq<Patient>)
    requires forall i :: 0 <= i < |patients| ==> patients[i].patientId != v.patientId
    ensures PatientVisits(visits + [v], patients) == PatientVisits(visits, patients)
    ensures VisitGenders(visits + [v], patients) == VisitGenders(visits, patients)
  {
    UnmatchedRowDropped(visits, v, patients, VisitPatientId, PatientId);
  }

  /** The age-group bars of the registered patients and of the visiting patients (one
      row per joined visit), each with one bar per age group in axis order. */
  function AgeCharts(patients: seq<Patient>, visits: seq<Visit>): (r: (seq<Group>, seq<Group>))
    ensures |r.0| == |PatientAgeOrder| && |r.1| == |PatientAgeOrder|
    ensures forall i :: 0 <= i < |PatientAgeOrder| ==>
      r.0[i].total == multiset(TextColumn(patients, PatientAge))[Some(Text(PatientAgeOrder[i]))]
      && r.1[i].total == multiset(TextColumn(PatientVisits(visits, patients), VisitAge))[Some(Text(PatientAgeOrder[i]))]
    ensures Totals(r.0) <= |patients| && Totals(r.1) <= |PatientVisits(visits, patients)|
  {
    (AgeBuckets(TextColumn(patients, PatientAge)), AgeBuckets(TextColumn(PatientVisits(visits, patients), VisitAge)))
  }

  /** The marital bars of the registered and of the visiting patients: `"Single"` then
      `"Married"`, spelled exactly so. */
  function MaritalCharts(patients: seq<Patient>, visits: seq<Visit>): (r: (seq<Group>, seq<Group>))
    ensures |r.0| == 2 && |r.1| == 2
    ensures r.0[0].total == QueryCount(TextColumn(patients, MaritalStatus), {"Single"})
    ensures r.0[1].total == QueryCount(TextColumn(patients, MaritalStatus), {"Married"})
    ensures r.1[0].total == QueryCount(TextColumn(PatientVisits(visits, patients), VisitMarital), {"Single"})
    ensures r.1[1].total == QueryCount(TextColumn(PatientVisits(visits, patients), VisitMarital), {"Married"})
  {
    (MaritalSeries(TextColumn(patients, MaritalStatus)), MaritalSeries(TextColumn(PatientVisits(visits, patients), VisitMarital)))
  }
}
