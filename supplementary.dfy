/** The supplementary-options page (applicant/supplementary/page.tsx): it
    screens the applicant against every department other than the one
    first chosen, in table order, and lets the applicant re-apply to a
    department by rewriting the `department` parameter of the query. */
module Supplementary {
  import opened Strings
  import opened SearchParams
  import Eligibility

  datatype Department = Department(name: string, school: string, subjects: seq<string>)

  /** `allDepartments`, in its order. */
  const AllDepartments: seq<(string, Department)> := [
    ("computer-science-soc", Department("Computer Science", "SOC", ["math", "english", "physics", "chemistry"])),
    ("mechanical-engineering-seet", Department("Mechanical Engineering", "SEET", ["math", "english", "physics", "chemistry"])),
    ("civil-engineering-seet", Department("Civil Engineering", "SEET", ["math", "english", "physics", "chemistry"])),
    ("food-science-tech-saat", Department("Food Science & Technology", "SAAT", ["math", "english", "chemistry", "biology"])),
    ("software-engineering-soc", Department("Software Engineering", "SOC", ["math", "english", "physics", "chemistry"])),
    ("information-technology-soc", Department("Information Technology", "SOC", ["math", "english", "physics", "chemistry"]))
  ]

  function Keys<T>(table: seq<(string, T)>): (r: seq<string>)
    ensures |r| == |table| && forall i :: 0 <= i < |table| ==> r[i] == table[i].0
  {
    if table == [] then [] else [table[0].0] + Keys(table[1..])
  }

  /** The strings of `keys` other than `omitted`, in their order. */
  function Except(keys: seq<string>, omitted: string): (r: seq<string>)
    ensures omitted !in r
    ensures forall k :: k in r <==> k in keys && k != omitted
  {
    if keys == [] then [] else (if keys[0] == omitted then [] else [keys[0]]) + Except(keys[1..], omitted)
  }

  /** One line of the table the page shows. */
  datatype Row = Row(
    key: string,
    name: string,
    school: string,
    creditCount: nat,
    has5Credits: bool,
    hasMinimumJamb: bool,
    isEligible: bool)

  /** `searchParams.get('department') || ''`. */
  function OriginalDepartment(q: Query): string
  {
    match Get(q, "department") case Some(d) => d case None => ""
  }

  /** The line for one department: the credits among its own required
      subjects and the same two thresholds as the eligibility page. */
  function RowFor(q: Query, key: string, dept: Department): (r: Row)
    ensures r.creditCount <= |dept.subjects|
  {
    var creditCount := Eligibility.CreditCount(q, dept.subjects);
    var has5Credits := creditCount >= 5;
    var hasMinimumJamb := Eligibility.MeetsJamb(q);
    Row(key, dept.name, dept.school, creditCount, has5Credits, hasMinimumJamb, has5Credits && hasMinimumJamb)
  }

  /** The lines for `table`, skipping the department under `original`. */
  function RowsOf(q: Query, original: string, table: seq<(string, Department)>): (rows: seq<Row>)
    ensures |rows| <= |table|
    ensures forall i :: 0 <= i < |rows| ==> exists j :: 0 <= j < |table| && rows[i] == RowFor(q, table[j].0, table[j].1)
  {
    if table == [] then []
    else
      var rest := RowsOf(q, original, table[1..]);
      var head := if table[0].0 == original then [] else [RowFor(q, table[0].0, table[0].1)];
      assert forall i :: 0 <= i < |rest| ==> exists j :: 1 <= j < |table| && rest[i] == RowFor(q, table[j].0, table[j].1) by {
        forall i | 0 <= i < |rest| ensures exists j :: 1 <= j < |table| && rest[i] == RowFor(q, table[j].0, table[j].1) {
          var j :| 0 <= j < |table[1..]| && rest[i] == RowFor(q, table[1..][j].0, table[1..][j].1);
          assert table[1..][j] == table[j + 1];
        }
      }
      head + rest
  }

  /** `SupplementaryOptions`: the rows of the table. */
  function Rows(q: Query): seq<Row>
  {
    RowsOf(q, OriginalDepartment(q), AllDepartments)
  }

  function RowKeys(rows: seq<Row>): (r: seq<string>)
    ensures |r| == |rows|
  {
    if rows == [] then [] else [rows[0].key] + RowKeys(rows[1..])
  }

  /** The row's Apply button is disabled exactly when the row is not
      eligible. */
  predicate ApplyEnabled(row: Row)
  {
    row.isEligible
  }

  // ---------------------------------------------------------------------
  // Properties of the scan

  lemma {:induction false} RowKeysOf(q: Query, original: string, table: seq<(string, Department)>)
    ensures RowKeys(RowsOf(q, original, table)) == Except(Keys(table), original)
  {
    if table != [] {
      RowKeysOf(q, original, table[1..]);
      var rest := RowsOf(q, original, table[1..]);
      assert Keys(table)[1..] == Keys(table[1..]);
      if table[0].0 != original {
        assert RowsOf(q, original, table) == [RowFor(q, table[0].0, table[0].1)] + rest;
        assert ([RowFor(q, table[0].0, table[0].1)] + rest)[1..] == rest;
      } else {
        assert RowsOf(q, original, table) == rest;
      }
    }
  }

  /** The rows are every department of the table except the one first
      chosen, each once, in table order. */
  lemma RowsAreOtherDepartments(q: Query)
    ensures RowKeys(Rows(q)) == Except(Keys(AllDepartments), OriginalDepartment(q))
  {
    RowKeysOf(q, OriginalDepartment(q), AllDepartments);
  }

  lemma {:induction false} ExceptAbsent(keys: seq<string>, omitted: string)
    requires omitted !in keys
    ensures Except(keys, omitted) == keys
  {
    if keys != [] {
      ExceptAbsent(keys[1..], omitted);
      assert keys == [keys[0]] + keys[1..];
    }
  }

  /** With no department, or one outside the table, all six departments
      are listed. */
  lemma AbsentOriginalListsAll(q: Query)
    requires forall i :: 0 <= i < |AllDepartments| ==> AllDepartments[i].0 != OriginalDepartment(q)
    ensures RowKeys(Rows(q)) == Keys(AllDepartments) && |Rows(q)| == 6
  {
    RowsAreOtherDepartments(q);
    var keys := Keys(AllDepartments);
    assert OriginalDepartment(q) !in keys;
    ExceptAbsent(keys, OriginalDepartment(q));
  }

  lemma {:induction false} ExceptPresent(keys: seq<string>, omitted: string)
    requires omitted in keys
    requires forall i, j :: 0 <= i < j < |keys| ==> keys[i] != keys[j]
    ensures |Except(keys, omitted)| == |keys| - 1
  {
    if keys[0] == omitted {
      assert omitted !in keys[1..];
      ExceptAbsent(keys[1..], omitted);
    } else {
      ExceptPresent(keys[1..], omitted);
    }
  }

  lemma KeysDistinct()
    ensures forall i, j :: 0 <= i < j < |Keys(AllDepartments)| ==> Keys(AllDepartments)[i] != Keys(AllDepartments)[j]
  {
    var t := Keys(AllDepartments);
    assert t == ["computer-science-soc", "mechanical-engineering-seet", "civil-engineering-seet",
                 "food-science-tech-saat", "software-engineering-soc", "information-technology-soc"];
  }

  /** With a department of the table first chosen, the five others are
      listed and that one is not. */
  lemma KnownOriginalOmitted(q: Query)
    requires exists i :: 0 <= i < |AllDepartments| && AllDepartments[i].0 == OriginalDepartment(q)
    ensures |Rows(q)| == 5 && OriginalDepartment(q) !in RowKeys(Rows(q))
  {
    RowsAreOtherDepartments(q);
    var keys := Keys(AllDepartments);
    var i :| 0 <= i < |AllDepartments| && AllDepartments[i].0 == OriginalDepartment(q);
    assert keys[i] == OriginalDepartment(q);
    KeysDistinct();
    ExceptPresent(keys, OriginalDepartment(q));
  }

  /** Every department of the table requires exactly four subjects. */
  lemma FourSubjectsEach()
    ensures forall i :: 0 <= i < |AllDepartments| ==> |AllDepartments[i].1.subjects| == 4
  {
  }

  /** With the table as shipped no row is ever eligible, so no Apply button
      is ever enabled. */
  lemma NoRowEligible(q: Query)
    ensures forall r :: r in Rows(q) ==> r.creditCount <= 4 && !r.isEligible && !ApplyEnabled(r)
  {
    FourSubjectsEach();
  }

  /** For the four departments both pages know, a row's Apply button is
      enabled exactly when the eligibility page, given the same query with
      that department, declares the applicant eligible. */
  lemma ApplyEnabledIff(q: Query, i: nat)
    requires i < |Eligibility.DepartmentRequirements|
    ensures var key := Eligibility.DepartmentRequirements[i].0;
            var v := Eligibility.Evaluate(SetParam(q, "department", key));
            && v.Screened?
            && (ApplyEnabled(RowFor(q, key, AllDepartments[i].1)) <==> v.verdict.isEligible)
  {
    RowAgreesWithEligibility(q, i);
  }

  /** For the four departments both pages know, the row agrees with the
      eligibility page's verdict on a query naming that department. */
  lemma RowAgreesWithEligibility(q: Query, i: nat)
    requires i < |Eligibility.DepartmentRequirements|
    ensures var key := Eligibility.DepartmentRequirements[i].0;
            var row := RowFor(q, key, AllDepartments[i].1);
            var v := Eligibility.Evaluate(SetParam(q, "department", key));
            && v.Screened?
            && v.verdict.creditCount == row.creditCount
            && v.verdict.isEligible == row.isEligible
  {
    var key := Eligibility.DepartmentRequirements[i].0;
    var q' := SetParam(q, "department", key);
    SetParamGet(q, "department", key);
    assert key != "";
    var subjects := AllDepartments[i].1.subjects;
    Eligibility.RequiredSubjectsAt(i);
    assert Eligibility.RequiredSubjects(key) == subjects;
    assert "department" !in subjects;
    Eligibility.OtherSubjectNeverCounts(q, subjects, "department", key);
    SetParamKeepsOthers(q, "department", key, "jambScore");
    assert Eligibility.JambOf(q') == Eligibility.JambOf(q);
  }

  // ---------------------------------------------------------------------
  // Re-applying

  /** `handleApply(deptKey)`: a copy of the query whose `department` is
      the chosen key, every other parameter as it was; the status page is
      then opened with it. */
  method HandleApply(q: Query, deptKey: string) returns (newQuery: Query)
    ensures newQuery == SetParam(q, "department", deptKey)
    ensures Get(newQuery, "department") == Some(deptKey) && Count(newQuery, "department") == 1
    ensures forall other :: other != "department" ==> Get(newQuery, other) == Get(q, other)
  {
    var params := new Params(q);
    params.Set("department", deptKey);
    newQuery := params.pairs;
    SetParamGet(q, "department", deptKey);
    forall other | other != "department" ensures Get(newQuery, other) == Get(q, other) {
      SetParamKeepsOthers(q, "department", deptKey, other);
    }
  }
}
