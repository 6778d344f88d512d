/** The eligibility page (applicant/eligibility/page.tsx): the credit
    grades, the department requirement table, the screening verdict read
    from the query string, and the display name derived from a department
    key. */
module Eligibility {
  import opened Strings
  import opened SearchParams
  import Scores

  /** `creditGrades`. */
  const CreditGrades: seq<string> := ["A1", "B2", "B3", "C4", "C5", "C6"]

  predicate IsCredit(grade: string)
  {
    grade in CreditGrades
  }

  /** The credit grades are exactly A1, B2, B3, C4, C5 and C6: the grades
      worth 40 points or more, and no text outside the grade table. */
  lemma CreditGradesExact()
    ensures forall g: Scores.Grade :: IsCredit(Scores.GradeKey(g)) <==> Scores.Points(g) >= 40
    ensures forall s :: IsCredit(s) ==> Scores.ParseGrade(s).Some?
  {
    forall g: Scores.Grade ensures IsCredit(Scores.GradeKey(g)) <==> Scores.Points(g) >= 40 {
      var k := Scores.GradeKey(g);
      assert forall c :: c in CreditGrades ==> c[0] in "ABC";
      if g == Scores.C6 { assert k == CreditGrades[5]; }
      if g == Scores.C5 { assert k == CreditGrades[4]; }
      if g == Scores.C4 { assert k == CreditGrades[3]; }
      if g == Scores.B3 { assert k == CreditGrades[2]; }
      if g == Scores.B2 { assert k == CreditGrades[1]; }
      if g == Scores.A1 { assert k == CreditGrades[0]; }
    }
  }

  datatype Requirement = Requirement(school: string, subjects: seq<string>)

  /** `departmentRequirements`, in its order. */
  const DepartmentRequirements: seq<(string, Requirement)> := [
    ("computer-science-soc", Requirement("SOC", ["math", "english", "physics", "chemistry"])),
    ("mechanical-engineering-seet", Requirement("SEET", ["math", "english", "physics", "chemistry"])),
    ("civil-engineering-seet", Requirement("SEET", ["math", "english", "physics", "chemistry"])),
    ("food-science-tech-saat", Requirement("SAAT", ["math", "english", "chemistry", "biology"]))
  ]

  /** `table[key]`: the entry under that key, undefined (None) when there
      is none. */
  function Lookup<T>(table: seq<(string, T)>, key: string): (r: Option<T>)
    ensures r.None? <==> forall i :: 0 <= i < |table| ==> table[i].0 != key
  {
    if table == [] then None
    else if table[0].0 == key then Some(table[0].1)
    else Lookup(table[1..], key)
  }

  /** Where `Lookup` found its entry. */
  function LookupIndex<T>(table: seq<(string, T)>, key: string): (i: nat)
    requires Lookup(table, key).Some?
    ensures i < |table| && table[i] == (key, Lookup(table, key).value)
  {
    if table[0].0 == key then 0 else 1 + LookupIndex(table[1..], key)
  }

  /** `departmentRequirements[department]?.subjects || []`. */
  function RequiredSubjects(department: string): seq<string>
  {
    match Lookup(DepartmentRequirements, department)
    case Some(req) => req.subjects
    case None => []
  }

  /** Each department of the table is found under its own key. */
  lemma RequiredSubjectsAt(i: nat)
    requires i < |DepartmentRequirements|
    ensures RequiredSubjects(DepartmentRequirements[i].0) == DepartmentRequirements[i].1.subjects
  {
    var t := DepartmentRequirements;
    assert t[0].0 != t[1].0 && t[0].0 != t[2].0 && t[0].0 != t[3].0;
    assert t[1].0 != t[2].0 && t[1].0 != t[3].0 && t[2].0 != t[3].0;
  }

  /** The number of `subjects` whose parameter (`searchParams.get(s) || ''`)
      is a credit grade. */
  function CreditCount(q: Query, subjects: seq<string>): (n: nat)
    ensures n <= |subjects|
  {
    if subjects == [] then 0
    else
      var grade := match Get(q, subjects[0]) case Some(g) => g case None => "";
      (if IsCredit(grade) then 1 else 0) + CreditCount(q, subjects[1..])
  }

  /** `Number(searchParams.get('jambScore'))`; None stands for NaN. */
  function JambOf(q: Query): Option<int>
  {
    NumberOf(Get(q, "jambScore"))
  }

  /** `jambScore >= 180`; NaN compares false. */
  predicate MeetsJamb(q: Query)
  {
    JambOf(q).Some? && JambOf(q).value >= 180
  }

  datatype Verdict = Verdict(
    department: string,
    deptName: string,
    school: Option<string>,
    requiredSubjects: seq<string>,
    jambScore: Option<int>,
    hasMinimumJamb: bool,
    creditCount: nat,
    has5Credits: bool,
    isEligible: bool)

  /** With no department the page asks for transcripts; otherwise it shows
      a verdict. */
  datatype Screening = NoDepartment | Screened(verdict: Verdict)

  /** `EligibilityCheck`: reads the department and score from the query
      and screens the applicant: eligible iff the score reaches 180 and at
      least five of the department's required subjects carry a credit. */
  function Evaluate(q: Query): (r: Screening)
    ensures r.NoDepartment? <==> Get(q, "department") == None || Get(q, "department") == Some("")
    ensures r.Screened? ==> r.verdict.department == Get(q, "department").value
    ensures r.Screened? ==> r.verdict.deptName == DeptName(r.verdict.department)
    ensures r.Screened? ==>
      r.verdict.school == (match Lookup(DepartmentRequirements, r.verdict.department)
                           case Some(req) => Some(req.school)
                           case None => None)
    ensures r.Screened? ==> r.verdict.requiredSubjects == RequiredSubjects(r.verdict.department)
    ensures r.Screened? ==> r.verdict.creditCount == CreditCount(q, r.verdict.requiredSubjects)
    ensures r.Screened? ==> r.verdict.jambScore == JambOf(q) && r.verdict.hasMinimumJamb == MeetsJamb(q)
    ensures r.Screened? ==>
      (r.verdict.isEligible <==> MeetsJamb(q) && CreditCount(q, RequiredSubjects(r.verdict.department)) >= 5)
  {
    var department := match Get(q, "department") case Some(d) => d case None => "";
    var requirement := Lookup(DepartmentRequirements, department);
    var required := RequiredSubjects(department);
    var hasMinimumJamb := MeetsJamb(q);
    var creditCount := CreditCount(q, required);
    var has5Credits := creditCount >= 5;
    if department == "" then NoDepartment
    else
      Screened(Verdict(department, DeptName(department),
        if requirement.Some? then Some(requirement.value.school) else None,
        required, JambOf(q), hasMinimumJamb, creditCount, has5Credits, hasMinimumJamb && has5Credits))
  }

  // ---------------------------------------------------------------------
  // Properties of the screening

  /** Only the required subjects are read: two queries that agree on them
      give the same credit count. */
  lemma {:induction false} CreditCountReadsRequiredOnly(q: Query, q': Query, subjects: seq<string>)
    requires forall s :: s in subjects ==> Get(q, s) == Get(q', s)
    ensures CreditCount(q, subjects) == CreditCount(q', subjects)
  {
    if subjects != [] {
      CreditCountReadsRequiredOnly(q, q', subjects[1..]);
    }
  }

  /** A grade for a subject the department does not require never counts,
      whatever it is. */
  lemma OtherSubjectNeverCounts(q: Query, subjects: seq<string>, name: string, grade: string)
    requires name !in subjects
    ensures CreditCount(SetParam(q, name, grade), subjects) == CreditCount(q, subjects)
  {
    forall s | s in subjects ensures Get(SetParam(q, name, grade), s) == Get(q, s) {
      SetParamKeepsOthers(q, name, grade, s);
    }
    CreditCountReadsRequiredOnly(SetParam(q, name, grade), q, subjects);
  }

  /** Every department of the table requires exactly four subjects. */
  lemma FourSubjectsEach()
    ensures forall i :: 0 <= i < |DepartmentRequirements| ==> |DepartmentRequirements[i].1.subjects| == 4
  {
  }

  /** With the table as shipped nobody is ever eligible: at most four
      subjects are read, so five credits are out of reach. */
  lemma NobodyEligible(q: Query)
    ensures Evaluate(q).Screened? ==> Evaluate(q).verdict.creditCount <= 4 && !Evaluate(q).verdict.isEligible
  {
    var r := Evaluate(q);
    if r.Screened? {
      var department := r.verdict.department;
      FourSubjectsEach();
      match Lookup(DepartmentRequirements, department)
      case Some(req) =>
        var i := LookupIndex(DepartmentRequirements, department);
      case None =>
    }
  }

  /** A department that is not in the table has no required subjects: no
      school, no credit, not eligible. */
  lemma UnknownDepartment(q: Query)
    requires Get(q, "department").Some? && Get(q, "department").value != ""
    requires forall i :: 0 <= i < |DepartmentRequirements| ==> DepartmentRequirements[i].0 != Get(q, "department").value
    ensures Evaluate(q).Screened? && Evaluate(q).verdict.school == None
    ensures Evaluate(q).verdict.creditCount == 0 && !Evaluate(q).verdict.isEligible
  {
  }

  /** A query without `jambScore` reads the score as 0, which fails the
      threshold. */
  lemma MissingJambFails(q: Query)
    requires Get(q, "jambScore") == None
    ensures JambOf(q) == Some(0) && !MeetsJamb(q)
  {
  }

  // ---------------------------------------------------------------------
  // Reading the query the score page forwards

  /** The subject whose form field is `key`, if any. */
  function SubjectOfKey(key: string): (r: Option<Scores.Subject>)
    ensures r.Some? ==> Scores.SubjectKey(r.value) == key
    ensures r.None? ==> forall s: Scores.Subject :: Scores.SubjectKey(s) != key
  {
    if key == "math" then Some(Scores.Math) else if key == "english" then Some(Scores.English)
    else if key == "physics" then Some(Scores.Physics) else if key == "chemistry" then Some(Scores.Chemistry)
    else if key == "biology" then Some(Scores.Biology) else if key == "agric" then Some(Scores.Agric)
    else if key == "economics" then Some(Scores.Economics) else if key == "government" then Some(Scores.Government)
    else if key == "geography" then Some(Scores.Geography) else None
  }

  /** The number of listed subjects that the applicant graded with a grade
      of 40 points or more. */
  function CreditsGiven(keys: seq<string>, grades: map<Scores.Subject, Scores.Grade>): nat
  {
    if keys == [] then 0
    else
      var s := SubjectOfKey(keys[0]);
      (if s.Some? && s.value in grades && Scores.Points(grades[s.value]) >= 40 then 1 else 0)
      + CreditsGiven(keys[1..], grades)
  }

  lemma {:induction false} CreditCountOfForwarded(v: Scores.FormValues, keys: seq<string>)
    requires forall k :: k in keys ==> SubjectOfKey(k).Some?
    ensures CreditCount(Scores.ForwardedQuery(v), keys) == CreditsGiven(keys, v.grades)
  {
    if keys != [] {
      var s := SubjectOfKey(keys[0]).value;
      Scores.ForwardedQueryGrade(v, s);
      CreditGradesExact();
      assert !IsCredit("");
      CreditCountOfForwarded(v, keys[1..]);
    }
  }

  lemma RequiredAreSubjects(department: string)
    ensures forall k :: k in RequiredSubjects(department) ==> SubjectOfKey(k).Some?
  {
    match Lookup(DepartmentRequirements, department)
    case Some(req) =>
      var i := LookupIndex(DepartmentRequirements, department);
    case None =>
  }

  /** What the eligibility page makes of an accepted transcript: it screens
      the department entered, reads back the JAMB score entered (a score of
      0, left out of the query as falsy, reads back as 0), and counts the
      required subjects graded 40 points or more. */
  lemma ScreensSubmittedForm(v: Scores.FormValues)
    requires Scores.ValidValues(v)
    ensures Evaluate(Scores.ForwardedQuery(v)).Screened?
    ensures Evaluate(Scores.ForwardedQuery(v)).verdict.department == v.department
    ensures JambOf(Scores.ForwardedQuery(v)) == Some(v.jambScore)
    ensures Evaluate(Scores.ForwardedQuery(v)).verdict.hasMinimumJamb <==> v.jambScore >= 180
    ensures Evaluate(Scores.ForwardedQuery(v)).verdict.creditCount == CreditsGiven(RequiredSubjects(v.department), v.grades)
  {
    var q := Scores.ForwardedQuery(v);
    Scores.ForwardedQueryFields(v);
    if v.jambScore != 0 {
      NumberOfIntToString(v.jambScore);
    }
    RequiredAreSubjects(v.department);
    CreditCountOfForwarded(v, RequiredSubjects(v.department));
  }

  // ---------------------------------------------------------------------
  // The department's display name

  /** `w.charAt(0).toUpperCase() + w.slice(1)`. */
  function Capitalize(w: string): string
  {
    if w == [] then [] else [UpperChar(w[0])] + w[1..]
  }

  /** `.map(Capitalize)`. */
  function CapitalizeAll(parts: seq<string>): (r: seq<string>)
    ensures |r| == |parts|
  {
    if parts == [] then [] else [Capitalize(parts[0])] + CapitalizeAll(parts[1..])
  }

  /** `department.split('-').slice(0, -1).map(Capitalize).join(' ')`. */
  function DeptName(department: string): string
  {
    var parts := Split(department, '-');
    Join(CapitalizeAll(parts[..|parts| - 1]), " ")
  }

  /** The reference reading of a display name, character by character:
      each '-' becomes a space and the first letter of each word is
      upper-cased (`atStart` says whether `s` starts a word). */
  function Titled(s: string, atStart: bool): (r: string)
    ensures |r| == |s|
  {
    if s == [] then []
    else
      var c := if s[0] == '-' then ' ' else if atStart then UpperChar(s[0]) else s[0];
      [c] + Titled(s[1..], s[0] == '-')
  }

  /** Character `i` of `Titled(s, atStart)`. */
  lemma {:induction false} TitledAt(s: string, atStart: bool, i: nat)
    requires i < |s|
    ensures Titled(s, atStart)[i] ==
      (if s[i] == '-' then ' ' else if (if i == 0 then atStart else s[i - 1] == '-') then UpperChar(s[i]) else s[i])
  {
    if i > 0 {
      TitledAt(s[1..], s[0] == '-', i - 1);
      assert s[1..][i - 1] == s[i];
      if i > 1 { assert s[1..][i - 2] == s[i - 1]; }
    }
  }

  /** The position of the last `c` in `s`. */
  function LastIndex(s: string, c: char): (i: nat)
    requires c in s
    ensures i < |s| && s[i] == c && c !in s[i + 1..]
  {
    if s[|s| - 1] == c then |s| - 1
    else
      assert s == s[..|s| - 1] + [s[|s| - 1]];
      LastIndex(s[..|s| - 1], c)
  }

  lemma {:induction false} JoinConsChar(c: char, first: string, rest: seq<string>, sep: string)
    ensures Join([[c] + first] + rest, sep) == [c] + Join([first] + rest, sep)
  {
    if rest != [] {
      assert ([[c] + first] + rest)[1..] == rest;
      assert ([first] + rest)[1..] == rest;
    }
  }

  /** Capitalising the parts of a split and joining them with spaces is the
      character-level reading: with `atStart` false the first part is left
      as it is. */
  lemma {:induction false} JoinCapitalizedSplit(s: string, atStart: bool)
    ensures var parts := Split(s, '-');
            Join((if atStart then [Capitalize(parts[0])] else [parts[0]]) + CapitalizeAll(parts[1..]), " ") == Titled(s, atStart)
  {
    if s != [] {
      var rest := Split(s[1..], '-');
      JoinCapitalizedSplit(s[1..], s[0] == '-');
      if s[0] == '-' {
        assert Split(s, '-') == [""] + rest;
        assert ([""] + rest)[1..] == rest;
        assert CapitalizeAll(rest) == [Capitalize(rest[0])] + CapitalizeAll(rest[1..]);
        var joined := [""] + CapitalizeAll(rest);
        assert joined[1..] == CapitalizeAll(rest);
      } else {
        var parts := Split(s, '-');
        assert parts == [[s[0]] + rest[0]] + rest[1..];
        assert parts[1..] == rest[1..];
        var c := if atStart then UpperChar(s[0]) else s[0];
        assert (if atStart then Capitalize(parts[0]) else parts[0]) == [c] + rest[0];
        JoinConsChar(c, rest[0], CapitalizeAll(rest[1..]), " ");
      }
    }
  }

  lemma {:induction false} SplitAppend(a: string, b: string, sep: char)
    ensures Split(a + [sep] + b, sep) == Split(a, sep) + Split(b, sep)
  {
    if a == [] {
      assert a + [sep] + b == [sep] + b;
      assert ([sep] + b)[1..] == b;
    } else {
      assert (a + [sep] + b)[1..] == a[1..] + [sep] + b;
      SplitAppend(a[1..], b, sep);
    }
  }

  lemma {:induction false} SplitNoSeparator(b: string, sep: char)
    requires sep !in b
    ensures Split(b, sep) == [b]
  {
    if b != [] {
      SplitNoSeparator(b[1..], sep);
      assert b == [b[0]] + b[1..];
    }
  }

  lemma {:induction false} SplitHasSeparator(s: string, sep: char)
    requires sep in s
    ensures |Split(s, sep)| >= 2
  {
    if s[0] != sep {
      SplitHasSeparator(s[1..], sep);
    }
  }

  /** The display name, character by character: empty for a key without a
      '-' (so "" gives ""); otherwise the key up to its last '-', with every
      '-' turned into a space and the first letter of each word upper-cased. */
  lemma DeptNameIsTitled(department: string)
    requires '-' in department
    ensures DeptName(department) == Titled(department[..LastIndex(department, '-')], true)
  {
    var p := LastIndex(department, '-');
    var head, tail := department[..p], department[p + 1..];
    assert department == head + ['-'] + tail;
    SplitAppend(head, tail, '-');
    SplitNoSeparator(tail, '-');
    var parts := Split(department, '-');
    assert parts[..|parts| - 1] == Split(head, '-');
    JoinCapitalizedSplit(head, true);
    var hp := Split(head, '-');
    assert CapitalizeAll(hp) == [Capitalize(hp[0])] + CapitalizeAll(hp[1..]);
  }

  lemma DeptNameReadsKey(department: string)
    ensures '-' !in department ==> DeptName(department) == ""
    ensures '-' in department ==>
      var p := LastIndex(department, '-');
      && |DeptName(department)| == p
      && forall i :: 0 <= i < p ==>
           DeptName(department)[i] ==
             (if department[i] == '-' then ' '
              else if i == 0 || department[i - 1] == '-' then UpperChar(department[i])
              else department[i])
  {
    if '-' !in department {
      SplitNoSeparator(department, '-');
    } else {
      DeptNameIsTitled(department);
      var p := LastIndex(department, '-');
      var head := department[..p];
      var name := Titled(head, true);
      forall i | 0 <= i < p
        ensures name[i] ==
             (if department[i] == '-' then ' '
              else if i == 0 || department[i - 1] == '-' then UpperChar(department[i])
              else department[i])
      {
        TitledAt(head, true, i);
        assert head[i] == department[i];
        if i > 0 { assert head[i - 1] == department[i - 1]; }
      }
    }
  }
}
