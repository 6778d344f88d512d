/** The applicant's transcript page (applicant/scores/page.tsx): the grade
    table, the form's validation rules, the admission-score pipeline (best
    five SSCE subjects, weighted with the JAMB score, plus the bonus for
    physically challenged applicants) and the query string the page hands
    on to the eligibility page. */
module Scores {
  import opened Strings
  import opened SearchParams

  // ---------------------------------------------------------------------
  // Grades and subjects

  datatype Grade = A1 | B2 | B3 | C4 | C5 | C6 | D7 | E8 | F9

  /** The keys of `gradeToPoints`, in the table's order. */
  const Grades: seq<Grade> := [A1, B2, B3, C4, C5, C6, D7, E8, F9]

  /** `gradeToPoints`. */
  function Points(g: Grade): nat
  {
    match g
    case A1 => 80 case B2 => 72 case B3 => 64
    case C4 => 56 case C5 => 48 case C6 => 40
    case D7 => 32 case E8 => 24 case F9 => 0
  }

  /** The text of a grade, as the form's select and the query carry it. */
  function GradeKey(g: Grade): string
  {
    match g
    case A1 => "A1" case B2 => "B2" case B3 => "B3"
    case C4 => "C4" case C5 => "C5" case C6 => "C6"
    case D7 => "D7" case E8 => "E8" case F9 => "F9"
  }

  /** The table, point by point: A1 80 down to F9 0, strictly falling in
      the table's order, never above 80. */
  lemma PointsTable()
    ensures Points(A1) == 80 && Points(B2) == 72 && Points(B3) == 64 && Points(C4) == 56
    ensures Points(C5) == 48 && Points(C6) == 40 && Points(D7) == 32 && Points(E8) == 24 && Points(F9) == 0
    ensures forall i, j :: 0 <= i < j < |Grades| ==> Points(Grades[i]) > Points(Grades[j])
    ensures forall g: Grade :: g in Grades && Points(g) <= 80
  {
    forall g: Grade ensures g in Grades {
      match g
      case A1 => assert Grades[0] == g; case B2 => assert Grades[1] == g;
      case B3 => assert Grades[2] == g; case C4 => assert Grades[3] == g;
      case C5 => assert Grades[4] == g; case C6 => assert Grades[5] == g;
      case D7 => assert Grades[6] == g; case E8 => assert Grades[7] == g;
      case F9 => assert Grades[8] == g;
    }
  }

  /** `gradesEnum`: the text must be one of the nine keys. */
  function ParseGrade(s: string): (r: Option<Grade>)
    ensures r.Some? ==> GradeKey(r.value) == s
    ensures r.None? ==> forall g: Grade :: GradeKey(g) != s
  {
    if s == "A1" then Some(A1) else if s == "B2" then Some(B2) else if s == "B3" then Some(B3)
    else if s == "C4" then Some(C4) else if s == "C5" then Some(C5) else if s == "C6" then Some(C6)
    else if s == "D7" then Some(D7) else if s == "E8" then Some(E8) else if s == "F9" then Some(F9)
    else None
  }

  datatype Subject = Math | English | Physics | Chemistry | Biology | Agric | Economics | Government | Geography

  /** `ALL_SSCE_SUBJECTS`, in its order. */
  const Subjects: seq<Subject> := [Math, English, Physics, Chemistry, Biology, Agric, Economics, Government, Geography]

  /** The form field (and query parameter) that holds a subject's grade. */
  function SubjectKey(s: Subject): string
  {
    match s
    case Math => "math" case English => "english" case Physics => "physics"
    case Chemistry => "chemistry" case Biology => "biology" case Agric => "agric"
    case Economics => "economics" case Government => "government" case Geography => "geography"
  }

  /** The five subjects the schema requires; the other four are optional. */
  predicate Required(s: Subject)
  {
    s.Math? || s.English? || s.Physics? || s.Chemistry? || s.Biology?
  }

  lemma SubjectsComplete()
    ensures forall s: Subject :: s in Subjects
    ensures forall i, j :: 0 <= i < j < |Subjects| ==> Subjects[i] != Subjects[j]
  {
    forall s: Subject ensures s in Subjects {
      match s
      case Math => assert Subjects[0] == s; case English => assert Subjects[1] == s;
      case Physics => assert Subjects[2] == s; case Chemistry => assert Subjects[3] == s;
      case Biology => assert Subjects[4] == s; case Agric => assert Subjects[5] == s;
      case Economics => assert Subjects[6] == s; case Government => assert Subjects[7] == s;
      case Geography => assert Subjects[8] == s;
    }
  }

  // ---------------------------------------------------------------------
  // The form and its validation

  datatype UploadedFile = UploadedFile(name: string, size: int, mimeType: string)

  /** `MAX_FILE_SIZE`: 5 MB. */
  const MaxFileSize: int := 5 * 1024 * 1024

  /** `ACCEPTED_IMAGE_TYPES`. */
  const AcceptedTypes: seq<string> := ["image/jpeg", "image/jpg", "image/png", "image/webp", "application/pdf"]

  /** What the form holds when it is submitted; a subject whose grade was
      never picked is absent from `grades`. */
  datatype RawForm = RawForm(
    jambScore: int,
    department: string,
    physicallyChallenged: bool,
    jambResultSlip: seq<UploadedFile>,
    ssceCertificate: seq<UploadedFile>,
    birthCertificate: seq<UploadedFile>,
    grades: map<Subject, string>)

  /** The values `onSubmit` receives once the schema has accepted the form. */
  datatype FormValues = FormValues(
    jambScore: int,
    department: string,
    physicallyChallenged: bool,
    jambResultSlip: seq<UploadedFile>,
    ssceCertificate: seq<UploadedFile>,
    birthCertificate: seq<UploadedFile>,
    grades: map<Subject, Grade>)

  /** The fields the schema reports on. */
  datatype Field =
    | JambScoreField | DepartmentField
    | JambResultSlipField | SsceCertificateField | BirthCertificateField
    | SubjectField(subject: Subject)

  /** One upload passes iff it holds exactly one file of at most 5 MB whose
      type is accepted. */
  predicate UploadOk(files: seq<UploadedFile>)
  {
    |files| == 1 && files[0].size <= MaxFileSize && files[0].mimeType in AcceptedTypes
  }

  /** A subject's field passes iff its grade is one of the nine keys, or it
      is optional and left empty. */
  predicate GradeOk(grades: map<Subject, string>, s: Subject)
  {
    if s in grades then ParseGrade(grades[s]).Some? else !Required(s)
  }

  /** The schema's rule for each field. */
  predicate Fails(raw: RawForm, f: Field)
  {
    match f
    case JambScoreField => !(0 <= raw.jambScore <= 400)
    case DepartmentField => |raw.department| < 1
    case JambResultSlipField => !UploadOk(raw.jambResultSlip)
    case SsceCertificateField => !UploadOk(raw.ssceCertificate)
    case BirthCertificateField => !UploadOk(raw.birthCertificate)
    case SubjectField(s) => !GradeOk(raw.grades, s)
  }

  /** The failing subject fields, in subject order. */
  function SubjectIssues(subs: seq<Subject>, grades: map<Subject, string>): (r: seq<Field>)
    ensures forall f :: f in r <==> f.SubjectField? && f.subject in subs && !GradeOk(grades, f.subject)
  {
    if subs == [] then []
    else (if GradeOk(grades, subs[0]) then [] else [SubjectField(subs[0])]) + SubjectIssues(subs[1..], grades)
  }

  /** The failing fields other than the subjects, in the schema's order. */
  function HeaderIssues(raw: RawForm): (r: seq<Field>)
    ensures forall f :: f in r <==> !f.SubjectField? && Fails(raw, f)
  {
    (if Fails(raw, JambScoreField) then [JambScoreField] else [])
    + (if Fails(raw, DepartmentField) then [DepartmentField] else [])
    + (if Fails(raw, JambResultSlipField) then [JambResultSlipField] else [])
    + (if Fails(raw, SsceCertificateField) then [SsceCertificateField] else [])
    + (if Fails(raw, BirthCertificateField) then [BirthCertificateField] else [])
  }

  /** Every failing field, in the schema's order. */
  function Issues(raw: RawForm): seq<Field>
  {
    HeaderIssues(raw) + SubjectIssues(Subjects, raw.grades)
  }

  datatype Validation = Accepted(values: FormValues) | Rejected(issues: seq<Field>)

  /** The schema (`formSchema` under `zodResolver`): the form is accepted
      iff no field fails, and then every grade is read as a `Grade`;
      otherwise every failing field is reported, and only those. */
  function Validate(raw: RawForm): (r: Validation)
    ensures r.Accepted? <==> forall f :: !Fails(raw, f)
    ensures r.Rejected? ==> r.issues != [] && forall f :: f in r.issues <==> Fails(raw, f)
    ensures r.Accepted? ==>
      && r.values.jambScore == raw.jambScore && r.values.department == raw.department
      && r.values.physicallyChallenged == raw.physicallyChallenged
      && r.values.jambResultSlip == raw.jambResultSlip && r.values.ssceCertificate == raw.ssceCertificate
      && r.values.birthCertificate == raw.birthCertificate
      && r.values.grades.Keys == raw.grades.Keys
      && (forall s :: s in raw.grades ==> GradeKey(r.values.grades[s]) == raw.grades[s])
      && ValidValues(r.values)
  {
    var issues := Issues(raw);
    IssuesExact(raw);
    if issues == [] then
      NothingFails(raw);
      Accepted(FormValues(raw.jambScore, raw.department, raw.physicallyChallenged,
        raw.jambResultSlip, raw.ssceCertificate, raw.birthCertificate, ReadGrades(raw.grades)))
    else
      assert issues[0] in issues;
      Rejected(issues)
  }

  lemma IssuesExact(raw: RawForm)
    ensures forall f :: f in Issues(raw) <==> Fails(raw, f)
  {
    SubjectsComplete();
    forall f ensures f in Issues(raw) <==> Fails(raw, f) {
      if f.SubjectField? {
        assert f.subject in Subjects;
      }
    }
  }

  lemma NothingFails(raw: RawForm)
    requires forall f :: !Fails(raw, f)
    ensures forall s :: s in raw.grades ==> ParseGrade(raw.grades[s]).Some?
    ensures forall s: Subject :: Required(s) ==> s in raw.grades
  {
    forall s | s in raw.grades ensures ParseGrade(raw.grades[s]).Some? {
      assert !Fails(raw, SubjectField(s));
    }
    forall s: Subject | Required(s) ensures s in raw.grades {
      assert !Fails(raw, SubjectField(s));
    }
  }

  /** Each grade text read as its `Grade`. */
  function ReadGrades(grades: map<Subject, string>): (r: map<Subject, Grade>)
    requires forall s :: s in grades ==> ParseGrade(grades[s]).Some?
    ensures r.Keys == grades.Keys && forall s :: s in grades ==> GradeKey(r[s]) == grades[s]
  {
    map s | s in grades :: ParseGrade(grades[s]).value
  }

  /** What the accepted values satisfy: the score in range, the required
      subjects graded, the uploads well-formed. */
  predicate ValidValues(v: FormValues)
  {
    && 0 <= v.jambScore <= 400 && |v.department| >= 1
    && UploadOk(v.jambResultSlip) && UploadOk(v.ssceCertificate) && UploadOk(v.birthCertificate)
    && forall s: Subject :: Required(s) ==> s in v.grades
  }

  // ---------------------------------------------------------------------
  // The score pipeline

  /** `ALL_SSCE_SUBJECTS.map(s => values[s]).filter(g => !!g)`: the grades
      given, in subject order. */
  function GradesGiven(subs: seq<Subject>, grades: map<Subject, Grade>): (r: seq<Grade>)
    ensures |r| <= |subs|
  {
    if subs == [] then []
    else (if subs[0] in grades then [grades[subs[0]]] else []) + GradesGiven(subs[1..], grades)
  }

  /** `.map(grade => gradeToPoints[grade] || 0)`. */
  function PointsOf(gs: seq<Grade>): (r: seq<nat>)
    ensures |r| == |gs| && forall i :: 0 <= i < |gs| ==> r[i] == Points(gs[i])
  {
    seq(|gs|, i requires 0 <= i < |gs| => Points(gs[i]))
  }

  predicate SortedDesc(s: seq<nat>)
  {
    forall i, j :: 0 <= i < j < |s| ==> s[i] >= s[j]
  }

  function Insert(x: nat, s: seq<nat>): (r: seq<nat>)
    requires SortedDesc(s)
    ensures SortedDesc(r) && multiset(r) == multiset(s) + multiset{x}
  {
    if s == [] || x >= s[0] then [x] + s
    else
      var tail := Insert(x, s[1..]);
      assert s == [s[0]] + s[1..];
      assert forall k :: 0 <= k < |tail| ==> tail[k] <= s[0] by {
        forall k | 0 <= k < |tail| ensures tail[k] <= s[0] {
          assert tail[k] in multiset(tail);
          assert tail[k] == x || tail[k] in multiset(s[1..]);
        }
      }
      [s[0]] + tail
  }

  /** `.sort((a, b) => b - a)`: the same values, largest first. */
  function SortDesc(s: seq<nat>): (r: seq<nat>)
    ensures SortedDesc(r) && multiset(r) == multiset(s) && |r| == |s|
  {
    if s == [] then []
    else
      assert s == [s[0]] + s[1..];
      Insert(s[0], SortDesc(s[1..]))
  }

  /** `.reduce((sum, p) => sum + p, 0)`. */
  function Sum(s: seq<nat>): nat
  {
    if s == [] then 0 else s[0] + Sum(s[1..])
  }

  function Min(a: int, b: int): int { if a <= b then a else b }

  /** `.slice(0, 5)` of the sorted points: the best five, or all of them
      when there are fewer. */
  function Best5(points: seq<nat>): seq<nat>
  {
    SortDesc(points)[..Min(5, |points|)]
  }

  /** `ssceTotal`: the sum of the best five points. */
  function Best5Total(points: seq<nat>): nat
  {
    Sum(Best5(points))
  }

  /** The academic total of an accepted form. */
  function AcademicTotal(v: FormValues): nat
  {
    Best5Total(PointsOf(GradesGiven(Subjects, v.grades)))
  }

  /** `jambComponent + ssceComponent + bonus`, on exact rationals. */
  function Composite(jamb: int, academic: int, physicallyChallenged: bool): real
  {
    (jamb as real / 400.0) * 75.0 + (academic as real / 400.0) * 25.0 + (if physicallyChallenged then 5.0 else 0.0)
  }

  /** `Math.round(x * 100) / 100`, on the exact value: half-up rounding to
      hundredths. */
  function RoundHundredths(x: real): (r: real)
    ensures x - 0.005 < r <= x + 0.005
  {
    (x * 100.0 + 0.5).Floor as real / 100.0
  }

  /** `finalResult.totalScore`. */
  function TotalScore(v: FormValues): real
  {
    RoundHundredths(Composite(v.jambScore, AcademicTotal(v), v.physicallyChallenged))
  }

  // ---------------------------------------------------------------------
  // Lemmas on the pipeline

  lemma {:induction false} SumAppend(a: seq<nat>, b: seq<nat>)
    ensures Sum(a + b) == Sum(a) + Sum(b)
  {
    if a == [] {
      assert a + b == b;
    } else {
      assert (a + b)[1..] == a[1..] + b;
      SumAppend(a[1..], b);
    }
  }

  lemma {:induction false} SumBound(s: seq<nat>, bound: nat)
    requires forall i :: 0 <= i < |s| ==> s[i] <= bound
    ensures Sum(s) <= bound * |s|
  {
    if s != [] {
      SumBound(s[1..], bound);
    }
  }

  /** The first occurrence of `x` taken out of `t`. */
  function RemoveFirst(t: seq<nat>, x: nat): (r: seq<nat>)
    requires x in t
    ensures multiset(r) == multiset(t) - multiset{x} && |r| == |t| - 1
    ensures Sum(t) == x + Sum(r)
  {
    assert t == [t[0]] + t[1..];
    if t[0] == x then t[1..] else [t[0]] + RemoveFirst(t[1..], x)
  }

  /** In a list sorted largest first, the head is at least every value. */
  lemma SortedHeadIsMax(u: seq<nat>, y: nat)
    requires SortedDesc(u) && y in multiset(u)
    ensures y <= u[0]
  {
    var i :| 0 <= i < |u| && u[i] == y;
  }

  /** Taking `x` out of `t` leaves a choice from the tail of `u`, when `x` is
      the head of `u` or the head does not occur in `t`. */
  lemma RemoveFirstFromTail(t: seq<nat>, u: seq<nat>, x: nat)
    requires u != [] && x in t && multiset(t) <= multiset(u)
    requires x == u[0] || u[0] !in t
    ensures multiset(RemoveFirst(t, x)) <= multiset(u[1..])
  {
    assert u == [u[0]] + u[1..];
    var mu := multiset(u[1..]);
    var mt := multiset(RemoveFirst(t, x));
    assert multiset(u) == multiset{u[0]} + mu;
    assert mt == multiset(t) - multiset{x};
    forall y ensures mt[y] <= mu[y] {
      assert mu[y] == multiset(u)[y] - (if y == u[0] then 1 else 0);
      if y == u[0] && x != y {
        assert multiset(t)[y] == 0;
      }
    }
  }

  /** No choice of at most `k` values from a sorted list sums to more than
      its first `k`. */
  lemma {:induction false} PrefixIsLargest(u: seq<nat>, k: nat, t: seq<nat>)
    requires SortedDesc(u)
    requires multiset(t) <= multiset(u) && |t| <= k
    ensures Sum(t) <= Sum(u[..Min(k, |u|)])
  {
    if t != [] {
      assert t[0] in multiset(u);
      var rest := u[1..];
      var n := Min(k, |u|);
      var top := rest[..n - 1];
      assert u[..n] == [u[0]] + top;
      assert ([u[0]] + top)[1..] == top;
      var x := if u[0] in t then u[0] else t[0];
      assert x in multiset(t);
      SortedHeadIsMax(u, x);
      RemoveFirstFromTail(t, u, x);
      assert SortedDesc(rest);
      PrefixIsLargest(rest, k - 1, RemoveFirst(t, x));
      assert Sum(RemoveFirst(t, x)) <= Sum(top);
    }
  }

  lemma PrefixIsSubMultiset(s: seq<nat>, k: nat)
    requires k <= |s|
    ensures multiset(s[..k]) <= multiset(s)
  {
    assert s == s[..k] + s[k..];
  }

  /** The academic total is the largest sum of at most five of the point
      values, and the best five are drawn from the values given (all of
      them when there are fewer than five). */
  lemma Best5IsLargest(points: seq<nat>, t: seq<nat>)
    requires multiset(t) <= multiset(points) && |t| <= 5
    ensures Sum(t) <= Best5Total(points)
    ensures multiset(Best5(points)) <= multiset(points) && |Best5(points)| == Min(5, |points|)
  {
    var u := SortDesc(points);
    PrefixIsLargest(u, 5, t);
    PrefixIsSubMultiset(u, Min(5, |points|));
  }

  /** The academic total depends on the multiset of points only, not on the
      order in which the subjects come. */
  lemma Best5OrderIndependent(a: seq<nat>, b: seq<nat>)
    requires multiset(a) == multiset(b)
    ensures Best5Total(a) == Best5Total(b)
  {
    Best5IsLargest(a, []);
    Best5IsLargest(b, []);
    Best5IsLargest(a, Best5(b));
    Best5IsLargest(b, Best5(a));
  }

  lemma MultisetUpdate(points: seq<nat>, i: nat, y: nat)
    requires i < |points|
    ensures multiset(points[i := y]) == multiset(points) - multiset{points[i]} + multiset{y}
  {
    assert points == points[..i] + [points[i]] + points[i + 1..];
    assert points[i := y] == points[..i] + [y] + points[i + 1..];
  }

  /** A choice from `points` with `points[i]` swapped for `y` is a choice
      from the updated list. */
  lemma SwapChoice(points: seq<nat>, i: nat, y: nat, chosen: seq<nat>)
    requires i < |points| && multiset(chosen) <= multiset(points) && points[i] in chosen
    ensures multiset(RemoveFirst(chosen, points[i]) + [y]) <= multiset(points[i := y])
  {
    MultisetUpdate(points, i, y);
  }

  lemma KeepChoice(points: seq<nat>, i: nat, y: nat, chosen: seq<nat>)
    requires i < |points| && multiset(chosen) <= multiset(points) && points[i] !in chosen
    ensures multiset(chosen) <= multiset(points[i := y])
  {
    MultisetUpdate(points, i, y);
    var m := multiset(points[i := y]);
    forall z ensures multiset(chosen)[z] <= m[z] {
      if z == points[i] { assert multiset(chosen)[z] == 0; }
    }
  }

  /** Raising one value, the others fixed, never lowers the total. */
  lemma Best5Raise(points: seq<nat>, i: nat, y: nat)
    requires i < |points| && points[i] <= y
    ensures Best5Total(points) <= Best5Total(points[i := y])
  {
    var chosen := Best5(points);
    Best5IsLargest(points, []);
    if points[i] in chosen {
      var kept := RemoveFirst(chosen, points[i]);
      SumAppend(kept, [y]);
      assert Sum([y]) == y;
      SwapChoice(points, i, y, chosen);
      Best5IsLargest(points[i := y], kept + [y]);
    } else {
      KeepChoice(points, i, y, chosen);
      Best5IsLargest(points[i := y], chosen);
    }
  }

  /** With every value at most 80, the total is at most 80 per subject
      taken, so at most 400. */
  lemma Best5TotalBound(points: seq<nat>)
    requires forall i :: 0 <= i < |points| ==> points[i] <= 80
    ensures Best5Total(points) <= 80 * Min(5, |points|) <= 400
  {
    var chosen := Best5(points);
    Best5IsLargest(points, []);
    forall k | 0 <= k < |chosen| ensures chosen[k] <= 80 {
      assert chosen[k] in multiset(points);
    }
    SumBound(chosen, 80);
  }

  /** The academic total of any accepted form lies in [0, 400]. */
  lemma AcademicTotalBound(v: FormValues)
    ensures AcademicTotal(v) <= 400
  {
    Best5TotalBound(PointsOf(GradesGiven(Subjects, v.grades)));
  }

  lemma {:induction false} GradesGivenIgnores(subs: seq<Subject>, grades: map<Subject, Grade>, s: Subject, g: Grade)
    requires s !in subs
    ensures GradesGiven(subs, grades[s := g]) == GradesGiven(subs, grades)
  {
    if subs != [] {
      GradesGivenIgnores(subs[1..], grades, s, g);
    }
  }

  /** Changing the grade of a subject that has one changes one entry of the
      grade list: the one at the returned index. */
  lemma {:induction false} GradesGivenUpdate(subs: seq<Subject>, grades: map<Subject, Grade>, s: Subject, g: Grade)
    returns (i: nat)
    requires s in grades && s in subs
    requires forall a, b :: 0 <= a < b < |subs| ==> subs[a] != subs[b]
    ensures i < |GradesGiven(subs, grades)| && GradesGiven(subs, grades)[i] == grades[s]
    ensures GradesGiven(subs, grades[s := g]) == GradesGiven(subs, grades)[i := g]
  {
    var rest := subs[1..];
    if subs[0] == s {
      assert s !in rest;
      GradesGivenIgnores(rest, grades, s, g);
      i := 0;
    } else {
      assert s in rest;
      var j := GradesGivenUpdate(rest, grades, s, g);
      if subs[0] in grades {
        i := j + 1;
      } else {
        i := j;
      }
    }
  }

  /** Raising one subject's grade, the others fixed, never lowers the
      academic total. */
  lemma RaiseGradeNeverLowers(v: FormValues, s: Subject, g: Grade)
    requires s in v.grades && Points(v.grades[s]) <= Points(g)
    ensures AcademicTotal(v) <= AcademicTotal(v.(grades := v.grades[s := g]))
  {
    SubjectsComplete();
    var i := GradesGivenUpdate(Subjects, v.grades, s, g);
    var before := GradesGiven(Subjects, v.grades);
    assert PointsOf(before[i := g]) == PointsOf(before)[i := Points(g)];
    Best5Raise(PointsOf(before), i, Points(g));
  }

  /** The composite is exact in sixteenths: (3 * jamb + academic) / 16 plus
      the bonus, and it grows with the JAMB score and with the academic
      total. */
  lemma CompositeInSixteenths(jamb: int, academic: int, pc: bool, jamb': int, academic': int)
    requires jamb <= jamb' && academic <= academic'
    ensures Composite(jamb, academic, pc) == (3 * jamb + academic) as real / 16.0 + (if pc then 5.0 else 0.0)
    ensures Composite(jamb, academic, pc) <= Composite(jamb', academic', pc)
  {
  }

  /** For a score in [0, 400] and an academic total in [0, 400], the
      composite lies in [0, 100] without the bonus and in [5, 105] with it. */
  lemma CompositeBounds(jamb: int, academic: int, pc: bool)
    requires 0 <= jamb <= 400 && 0 <= academic <= 400
    ensures var bonus := if pc then 5.0 else 0.0;
            bonus <= Composite(jamb, academic, pc) <= 100.0 + bonus
  {
  }

  lemma RoundMonotone(x: real, y: real)
    requires x <= y
    ensures RoundHundredths(x) <= RoundHundredths(y)
  {
    assert (x * 100.0 + 0.5).Floor <= (y * 100.0 + 0.5).Floor;
  }

  /** The displayed total of an accepted form is within half a hundredth of
      the exact composite and stays within the composite's bounds: [0, 100]
      without the bonus, [5, 105] with it. */
  lemma TotalScoreBounds(v: FormValues)
    requires ValidValues(v)
    ensures var bonus := if v.physicallyChallenged then 5.0 else 0.0;
            var exact := Composite(v.jambScore, AcademicTotal(v), v.physicallyChallenged);
            && exact - 0.005 < TotalScore(v) <= exact + 0.005
            && bonus <= TotalScore(v) <= 100.0 + bonus
  {
    var bonus := if v.physicallyChallenged then 5.0 else 0.0;
    var exact := Composite(v.jambScore, AcademicTotal(v), v.physicallyChallenged);
    AcademicTotalBound(v);
    CompositeBounds(v.jambScore, AcademicTotal(v), v.physicallyChallenged);
    RoundMonotone(bonus, exact);
    RoundMonotone(exact, 100.0 + bonus);
    assert (bonus * 100.0 + 0.5).Floor as real == bonus * 100.0;
    assert ((100.0 + bonus) * 100.0 + 0.5).Floor as real == (100.0 + bonus) * 100.0;
  }

  // ---------------------------------------------------------------------
  // The query handed to the eligibility page

  /** A value of the submitted record, as JavaScript sees it. */
  datatype FieldValue =
    | NumberValue(n: int)
    | TextValue(s: string)
    | BoolValue(b: bool)
    | FileListValue(files: seq<UploadedFile>)
    | Undefined

  /** JavaScript truthiness: 0, "", false and undefined are falsy; a file
      list is an object and so truthy. */
  predicate Truthy(x: FieldValue)
  {
    match x
    case NumberValue(n) => n != 0
    case TextValue(s) => s != ""
    case BoolValue(b) => b
    case FileListValue(_) => true
    case Undefined => false
  }

  /** `String(value)`. */
  function Stringify(x: FieldValue): string
  {
    match x
    case NumberValue(n) => IntToString(n)
    case TextValue(s) => s
    case BoolValue(b) => if b then "true" else "false"
    case FileListValue(_) => "[object FileList]"
    case Undefined => "undefined"
  }

  predicate IsUpload(key: string)
  {
    key == "jambResultSlip" || key == "ssceCertificate" || key == "birthCertificate"
  }

  /** `Object.entries(values)`: the fields in the schema's order, an
      ungraded optional subject holding `undefined`. */
  function Entries(v: FormValues): seq<(string, FieldValue)>
  {
    [ ("jambScore", NumberValue(v.jambScore)),
      ("department", TextValue(v.department)),
      ("physicallyChallenged", BoolValue(v.physicallyChallenged)),
      ("jambResultSlip", FileListValue(v.jambResultSlip)),
      ("ssceCertificate", FileListValue(v.ssceCertificate)),
      ("birthCertificate", FileListValue(v.birthCertificate)) ]
    + SubjectEntries(Subjects, v.grades)
  }

  function SubjectEntries(subs: seq<Subject>, grades: map<Subject, Grade>): seq<(string, FieldValue)>
  {
    if subs == [] then []
    else [(SubjectKey(subs[0]), if subs[0] in grades then TextValue(GradeKey(grades[subs[0]])) else Undefined)]
         + SubjectEntries(subs[1..], grades)
  }

  /** What the accumulator of the `reduce` ends up holding: every entry
      except the three uploads and the falsy values, stringified, in order. */
  function Forwarded(entries: seq<(string, FieldValue)>): Query
  {
    if entries == [] then []
    else
      var (key, value) := entries[0];
      (if !IsUpload(key) && Truthy(value) then [(key, Stringify(value))] else [])
      + Forwarded(entries[1..])
  }

  /** The `reduce` over `Object.entries(values)` that builds the query: an
      accumulator extended one entry at a time. */
  method BuildQuery(entries: seq<(string, FieldValue)>) returns (acc: Query)
    ensures acc == Forwarded(entries)
  {
    acc := [];
    var i := 0;
    while i < |entries|
      invariant 0 <= i <= |entries|
      invariant acc + Forwarded(entries[i..]) == Forwarded(entries)
    {
      assert entries[i..][1..] == entries[i + 1..];
      var (key, value) := entries[i];
      if !IsUpload(key) && Truthy(value) {
        acc := acc + [(key, Stringify(value))];
      }
      i := i + 1;
    }
    assert entries[i..] == [];
  }

  /** The value of the first entry with that key. */
  function FieldOf(entries: seq<(string, FieldValue)>, key: string): Option<FieldValue>
  {
    if entries == [] then None
    else if entries[0].0 == key then Some(entries[0].1)
    else FieldOf(entries[1..], key)
  }

  predicate DistinctKeys(entries: seq<(string, FieldValue)>)
  {
    forall a, b :: 0 <= a < b < |entries| ==> entries[a].0 != entries[b].0
  }

  lemma {:induction false} FieldOfNone(entries: seq<(string, FieldValue)>, key: string)
    requires forall a :: 0 <= a < |entries| ==> entries[a].0 != key
    ensures FieldOf(entries, key) == None
  {
    if entries != [] {
      FieldOfNone(entries[1..], key);
    }
  }

  /** The forwarded value of an entry: absent for an upload or a falsy
      value, else its `String`. */
  function ForwardedValue(key: string, field: Option<FieldValue>): Option<string>
  {
    match field
    case Some(x) => if !IsUpload(key) && Truthy(x) then Some(Stringify(x)) else None
    case None => None
  }

  /** Reading a parameter of the forwarded query: an upload or a falsy value
      is absent, any other value is its `String`. */
  lemma {:induction false} GetForwarded(entries: seq<(string, FieldValue)>, key: string)
    requires DistinctKeys(entries)
    ensures Get(Forwarded(entries), key) == ForwardedValue(key, FieldOf(entries, key))
  {
    if entries != [] {
      var rest := entries[1..];
      var (k0, v0) := entries[0];
      var head: Query := if !IsUpload(k0) && Truthy(v0) then [(k0, Stringify(v0))] else [];
      assert Forwarded(entries) == head + Forwarded(rest);
      assert DistinctKeys(rest) by {
        forall a, b | 0 <= a < b < |rest| ensures rest[a].0 != rest[b].0 {
          assert rest[a] == entries[a + 1] && rest[b] == entries[b + 1];
        }
      }
      GetForwarded(rest, key);
      if head != [] {
        GetCons(head[0], Forwarded(rest), key);
        assert head + Forwarded(rest) == [head[0]] + Forwarded(rest);
      } else {
        assert head + Forwarded(rest) == Forwarded(rest);
      }
      if k0 == key {
        forall a | 0 <= a < |rest| ensures rest[a].0 != key {
          assert rest[a] == entries[a + 1];
        }
        FieldOfNone(rest, key);
      }
    }
  }

  lemma {:induction false} SubjectEntriesFacts(subs: seq<Subject>, grades: map<Subject, Grade>)
    requires forall a, b :: 0 <= a < b < |subs| ==> subs[a] != subs[b]
    ensures |SubjectEntries(subs, grades)| == |subs|
    ensures forall k :: 0 <= k < |subs| ==> SubjectEntries(subs, grades)[k].0 == SubjectKey(subs[k])
    ensures forall k :: 0 <= k < |subs| ==>
      SubjectEntries(subs, grades)[k].1 == (if subs[k] in grades then TextValue(GradeKey(grades[subs[k]])) else Undefined)
  {
    if subs != [] {
      SubjectEntriesFacts(subs[1..], grades);
    }
  }

  lemma SubjectKeyInjective(a: Subject, b: Subject)
    requires SubjectKey(a) == SubjectKey(b)
    ensures a == b
  {
    var k := SubjectKey(a);
    assert |k| >= 4;
    match a
    case Math => assert k[0] == 'm'; case English => assert k[0] == 'e';
    case Physics => assert k[0] == 'p'; case Chemistry => assert k[0] == 'c';
    case Biology => assert k[0] == 'b'; case Agric => assert k[0] == 'a';
    case Economics => assert k[1] == 'c'; case Government => assert k[0] == 'g' && k[1] == 'o';
    case Geography => assert k[0] == 'g' && k[1] == 'e';
  }

  /** No subject's key is one of the six other field names. */
  lemma SubjectKeyNotOther(s: Subject)
    ensures SubjectKey(s) !in ["jambScore", "department", "physicallyChallenged", "jambResultSlip", "ssceCertificate", "birthCertificate"]
  {
  }

  lemma {:induction false} FieldOfSubject(subs: seq<Subject>, grades: map<Subject, Grade>, s: Subject)
    ensures FieldOf(SubjectEntries(subs, grades), SubjectKey(s)) ==
      if s in subs then Some(if s in grades then TextValue(GradeKey(grades[s])) else Undefined) else None
  {
    if subs != [] {
      FieldOfSubject(subs[1..], grades, s);
      if SubjectKey(subs[0]) == SubjectKey(s) {
        SubjectKeyInjective(subs[0], s);
      }
    }
  }

  lemma EntriesDistinct(v: FormValues)
    ensures DistinctKeys(Entries(v))
  {
    var es := Entries(v);
    SubjectsComplete();
    SubjectEntriesFacts(Subjects, v.grades);
    forall a, b | 0 <= a < b < |es| ensures es[a].0 != es[b].0 {
      if b >= 6 {
        SubjectKeyNotOther(Subjects[b - 6]);
        if a >= 6 && es[a].0 == es[b].0 {
          SubjectKeyInjective(Subjects[a - 6], Subjects[b - 6]);
        }
      }
    }
  }

  /** The query the page pushes to the eligibility page. */
  function ForwardedQuery(v: FormValues): Query
  {
    Forwarded(Entries(v))
  }

  lemma {:induction false} FieldOfSkip(prefix: seq<(string, FieldValue)>, rest: seq<(string, FieldValue)>, key: string)
    requires forall a :: 0 <= a < |prefix| ==> prefix[a].0 != key
    ensures FieldOf(prefix + rest, key) == FieldOf(rest, key)
  {
    if prefix == [] {
      assert prefix + rest == rest;
    } else {
      assert (prefix + rest)[1..] == prefix[1..] + rest;
      FieldOfSkip(prefix[1..], rest, key);
    }
  }

  /** The six fields before the subjects, as `Object.entries` lists them. */
  function Header(v: FormValues): seq<(string, FieldValue)>
  {
    Entries(v)[..6]
  }

  lemma HeaderOmitsSubject(v: FormValues, s: Subject)
    ensures forall a :: 0 <= a < |Header(v)| ==> Header(v)[a].0 != SubjectKey(s)
  {
    SubjectKeyNotOther(s);
    var h := Header(v);
    assert |h| == 6;
    forall a | 0 <= a < 6 ensures h[a].0 != SubjectKey(s) {
      assert h[a].0 in ["jambScore", "department", "physicallyChallenged", "jambResultSlip", "ssceCertificate", "birthCertificate"];
    }
  }

  lemma ForwardedHeaderField(v: FormValues, a: nat)
    requires a < 6
    ensures Get(ForwardedQuery(v), Header(v)[a].0) == ForwardedValue(Header(v)[a].0, Some(Header(v)[a].1))
  {
    var es := Entries(v);
    EntriesDistinct(v);
    GetForwarded(es, es[a].0);
    assert es == es[..a] + es[a..];
    FieldOfSkip(es[..a], es[a..], es[a].0);
  }

  /** The forwarded query carries the score (unless it is 0), the
      department (unless empty) and the bonus flag only when it is set (as
      "true"). */
  lemma ForwardedQueryFields(v: FormValues)
    ensures Get(ForwardedQuery(v), "jambScore") == (if v.jambScore != 0 then Some(IntToString(v.jambScore)) else None)
    ensures Get(ForwardedQuery(v), "department") == (if v.department != "" then Some(v.department) else None)
    ensures Get(ForwardedQuery(v), "physicallyChallenged") == (if v.physicallyChallenged then Some("true") else None)
  {
    ForwardedJamb(v);
    ForwardedDepartment(v);
    ForwardedBonus(v);
  }

  lemma ForwardedJamb(v: FormValues)
    ensures Get(ForwardedQuery(v), "jambScore") == (if v.jambScore != 0 then Some(IntToString(v.jambScore)) else None)
  {
    ForwardedHeaderField(v, 0);
    assert Header(v)[0] == ("jambScore", NumberValue(v.jambScore));
  }

  lemma ForwardedDepartment(v: FormValues)
    ensures Get(ForwardedQuery(v), "department") == (if v.department != "" then Some(v.department) else None)
  {
    ForwardedHeaderField(v, 1);
    assert Header(v)[1] == ("department", TextValue(v.department));
  }

  lemma ForwardedBonus(v: FormValues)
    ensures Get(ForwardedQuery(v), "physicallyChallenged") == (if v.physicallyChallenged then Some("true") else None)
  {
    ForwardedHeaderField(v, 2);
    assert Header(v)[2] == ("physicallyChallenged", BoolValue(v.physicallyChallenged));
  }

  /** No upload reaches the forwarded query. */
  lemma ForwardedQueryNoUploads(v: FormValues)
    ensures Get(ForwardedQuery(v), "jambResultSlip") == None
    ensures Get(ForwardedQuery(v), "ssceCertificate") == None
    ensures Get(ForwardedQuery(v), "birthCertificate") == None
  {
    var h := Header(v);
    assert h[3].0 == "jambResultSlip" && h[4].0 == "ssceCertificate" && h[5].0 == "birthCertificate";
    ForwardedHeaderField(v, 3);
    ForwardedHeaderField(v, 4);
    ForwardedHeaderField(v, 5);
  }

  lemma FieldOfEntriesSubject(v: FormValues, s: Subject)
    ensures FieldOf(Entries(v), SubjectKey(s)) == Some(if s in v.grades then TextValue(GradeKey(v.grades[s])) else Undefined)
  {
    var key := SubjectKey(s);
    HeaderOmitsSubject(v, s);
    assert Entries(v) == Header(v) + SubjectEntries(Subjects, v.grades);
    FieldOfSkip(Header(v), SubjectEntries(Subjects, v.grades), key);
    FieldOfSubject(Subjects, v.grades, s);
    assert s in Subjects by { SubjectsComplete(); }
  }

  /** A text field that is not an upload is forwarded as itself when it is
      non-empty; an `undefined` field is not forwarded. */
  lemma GetForwardedText(entries: seq<(string, FieldValue)>, key: string, text: Option<string>)
    requires DistinctKeys(entries) && !IsUpload(key)
    requires FieldOf(entries, key) == Some(if text.Some? then TextValue(text.value) else Undefined)
    requires text.Some? ==> text.value != ""
    ensures Get(Forwarded(entries), key) == text
  {
    GetForwarded(entries, key);
  }

  /** The forwarded query carries the key of every grade given and nothing
      for a subject left empty. */
  lemma ForwardedQueryGrade(v: FormValues, s: Subject)
    ensures Get(ForwardedQuery(v), SubjectKey(s)) == (if s in v.grades then Some(GradeKey(v.grades[s])) else None)
  {
    var text := if s in v.grades then Some(GradeKey(v.grades[s])) else None;
    EntriesDistinct(v);
    FieldOfEntriesSubject(v, s);
    SubjectKeyNotOther(s);
    if s in v.grades {
      assert |GradeKey(v.grades[s])| == 2;
    }
    GetForwardedText(Entries(v), SubjectKey(s), text);
  }
}
