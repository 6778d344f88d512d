/** The quota-management page (dashboard/quotas/page.tsx): a table of
    departments whose admission quota is split 45% merit, 35% catchment and
    20% ELDS / physically challenged, and a two-step edit of one quota
    (Edit opens an input box, Save writes the value back and recomputes the
    split). */
module Quotas {
  import opened Strings

  /** A row of the table: the record of `departments` plus its split. */
  datatype Department = Department(
    id: string,
    name: string,
    school: string,
    quota: int,
    filled: int,
    merit: int,
    catchment: int,
    elds: int)

  /** `Math.floor(q * 0.45)`, in exact arithmetic. */
  function Merit(q: int): int { (45 * q) / 100 }

  /** `Math.floor(q * 0.35)`, in exact arithmetic. */
  function Catchment(q: int): int { (35 * q) / 100 }

  /** `Math.ceil(q * 0.20)`, in exact arithmetic. */
  function Elds(q: int): int { (20 * q + 99) / 100 }

  /** The three parts are the floor, floor and ceiling of 45%, 35% and 20%
      of the quota, for every integer quota, negative ones included. */
  lemma SplitIsRounded(q: int)
    ensures 100 * Merit(q) <= 45 * q < 100 * Merit(q) + 100
    ensures 100 * Catchment(q) <= 35 * q < 100 * Catchment(q) + 100
    ensures 100 * Elds(q) - 100 < 20 * q <= 100 * Elds(q)
  {
  }

  /** The split never exceeds the quota and loses at most one place to
      rounding; for a quota of 0 or more no part is negative. */
  lemma SplitWithinQuota(q: int)
    ensures q - 1 <= Merit(q) + Catchment(q) + Elds(q) <= q
    ensures q >= 0 ==> 0 <= Merit(q) && 0 <= Catchment(q) && 0 <= Elds(q)
  {
    SplitIsRounded(q);
  }

  /** The row with quota `q` and the split recomputed from it; every other
      field kept. */
  function WithQuota(d: Department, q: int): (r: Department)
    ensures r.id == d.id && r.name == d.name && r.school == d.school && r.filled == d.filled
    ensures r.quota == q && SplitMatches(r)
  {
    d.(quota := q, merit := Merit(q), catchment := Catchment(q), elds := Elds(q))
  }

  predicate SplitMatches(d: Department)
  {
    d.merit == Merit(d.quota) && d.catchment == Catchment(d.quota) && d.elds == Elds(d.quota)
  }

  /** Every row's split matches its quota and no two rows share an id. */
  predicate WellFormed(rows: seq<Department>)
  {
    && (forall i :: 0 <= i < |rows| ==> SplitMatches(rows[i]))
    && (forall i, j :: 0 <= i < j < |rows| ==> rows[i].id != rows[j].id)
  }

  /** A row of `departments` before the split is added. */
  function Base(id: string, name: string, school: string, quota: int, filled: int): Department
  {
    WithQuota(Department(id, name, school, quota, filled, 0, 0, 0), quota)
  }

  /** The initial state of `departmentData`. */
  function InitialDepartments(): seq<Department>
  {
    [ Base("computer-science-soc", "Computer Science", "SOC", 100, 45),
      Base("mechanical-engineering-seet", "Mechanical Engineering", "SEET", 75, 60),
      Base("civil-engineering-seet", "Civil Engineering", "SEET", 80, 80),
      Base("food-science-tech-saat", "Food Science & Technology", "SAAT", 60, 30),
      Base("software-engineering-soc", "Software Engineering", "SOC", 90, 20),
      Base("information-technology-soc", "Information Technology", "SOC", 90, 85) ]
  }

  /** The initial table has six rows, each split from its quota, with
      distinct ids. */
  lemma InitialSplit()
    ensures |InitialDepartments()| == 6 && WellFormed(InitialDepartments())
  {
    var t := InitialDepartments();
    assert t[0].id != t[1].id && t[0].id != t[2].id && t[0].id != t[3].id && t[0].id != t[4].id && t[0].id != t[5].id;
    assert t[1].id != t[2].id && t[1].id != t[3].id && t[1].id != t[4].id && t[1].id != t[5].id;
    assert t[2].id != t[3].id && t[2].id != t[4].id && t[2].id != t[5].id;
    assert t[3].id != t[4].id && t[3].id != t[5].id && t[4].id != t[5].id;
  }

  /** The initial quotas 100, 75, 80, 60, 90 and 90 are split into
      45/35/20, 33/26/15, 36/28/16, 27/21/12, 40/31/18 and 40/31/18. */
  lemma InitialSplitValues()
    ensures var t := InitialDepartments();
            && (t[0].merit, t[0].catchment, t[0].elds) == (45, 35, 20)
            && (t[1].merit, t[1].catchment, t[1].elds) == (33, 26, 15)
            && (t[2].merit, t[2].catchment, t[2].elds) == (36, 28, 16)
            && (t[3].merit, t[3].catchment, t[3].elds) == (27, 21, 12)
            && (t[4].merit, t[4].catchment, t[4].elds) == (40, 31, 18)
            && (t[5].merit, t[5].catchment, t[5].elds) == (40, 31, 18)
  {
  }

  /** The table after Save on `id` with `value`: the row with that id
      takes the new quota and split, every other row is as it was. */
  function SaveSpec(rows: seq<Department>, id: string, value: int): (r: seq<Department>)
    ensures |r| == |rows|
  {
    seq(|rows|, i requires 0 <= i < |rows| => if rows[i].id == id then WithQuota(rows[i], value) else rows[i])
  }

  /** Save changes only the edited row: the others are untouched, the
      edited one keeps its id, name, school and filled count, and the order
      of the rows is kept. */
  lemma SaveChangesOnlyEditedRow(rows: seq<Department>, id: string, value: int)
    ensures |SaveSpec(rows, id, value)| == |rows|
    ensures forall i :: 0 <= i < |rows| && rows[i].id != id ==> SaveSpec(rows, id, value)[i] == rows[i]
    ensures forall i :: 0 <= i < |rows| ==>
      var r := SaveSpec(rows, id, value)[i];
      r.id == rows[i].id && r.name == rows[i].name && r.school == rows[i].school && r.filled == rows[i].filled
    ensures forall i :: 0 <= i < |rows| && rows[i].id == id ==>
      SaveSpec(rows, id, value)[i].quota == value && SplitMatches(SaveSpec(rows, id, value)[i])
  {
  }

  /** Save keeps the table well formed. */
  lemma SaveKeepsWellFormed(rows: seq<Department>, id: string, value: int)
    requires WellFormed(rows)
    ensures WellFormed(SaveSpec(rows, id, value))
  {
    var r := SaveSpec(rows, id, value);
    assert forall i :: 0 <= i < |rows| ==> r[i].id == rows[i].id;
  }

  /** Saving the same value twice is saving it once. */
  lemma SaveIdempotent(rows: seq<Department>, id: string, value: int)
    ensures SaveSpec(SaveSpec(rows, id, value), id, value) == SaveSpec(rows, id, value)
  {
  }

  /** Edit followed by Save without touching the input box leaves a
      well-formed table as it was. */
  lemma SaveUnchangedIsNoOp(rows: seq<Department>, i: nat)
    requires WellFormed(rows) && i < |rows|
    ensures SaveSpec(rows, rows[i].id, rows[i].quota) == rows
  {
    var r := SaveSpec(rows, rows[i].id, rows[i].quota);
    forall j | 0 <= j < |rows| ensures r[j] == rows[j] {
      if j != i {
        assert rows[j].id != rows[i].id;
      }
    }
  }

  /** What the quota input box holds after a change: `parseInt(text, 10)`,
      or 0 when that is NaN (a 0 read is 0 either way). */
  function EditValue(text: string): int
  {
    match ParseInt(text)
    case Some(n) => n
    case None => 0
  }

  /** Input that does not start (after white space and a sign) with a digit
      becomes 0; the box holds 0 only for such input or for text that
      `parseInt` reads as 0. */
  lemma NonNumericEditIsZero(text: string)
    ensures NoLeadingDigit(text) ==> EditValue(text) == 0
    ensures EditValue(text) == 0 <==> NoLeadingDigit(text) || ParseInt(text) == Some(0)
  {
    ParseIntNoDigit(text);
  }

  /** Typing the decimal text of a number puts that number in the box. */
  lemma EditValueOfNumber(n: int)
    ensures EditValue(IntToString(n)) == n
  {
    ParseIntIntToString(n);
  }

  /** The page's state. */
  class QuotaBoard {
    var departmentData: seq<Department>
    var editingId: Option<string>
    var currentValue: int

    ghost predicate Valid()
      reads this
    {
      WellFormed(departmentData)
    }

    /** The page as first shown: the initial table, nothing being edited. */
    constructor ()
      ensures departmentData == InitialDepartments() && editingId == None && currentValue == 0
      ensures Valid()
    {
      departmentData := InitialDepartments();
      editingId := None;
      currentValue := 0;
      InitialSplit();
    }

    /** `handleEdit(dept)`: opens the input box on `dept` with its quota. */
    method HandleEdit(dept: Department)
      modifies this
      ensures editingId == Some(dept.id) && currentValue == dept.quota
      ensures departmentData == old(departmentData)
    {
      editingId := Some(dept.id);
      currentValue := dept.quota;
    }

    /** The input box's `onChange`. */
    method OnChange(text: string)
      modifies this
      ensures currentValue == EditValue(text)
      ensures departmentData == old(departmentData) && editingId == old(editingId)
    {
      var parsed := ParseInt(text);
      if parsed.Some? {
        currentValue := parsed.value;
      } else {
        currentValue := 0;
      }
    }

    /** `handleSave(id)`: writes the box's value into the row with that id,
      recomputes its split and closes the box. */
    method HandleSave(id: string)
      modifies this
      ensures departmentData == SaveSpec(old(departmentData), id, old(currentValue))
      ensures editingId == None && currentValue == old(currentValue)
      ensures old(Valid()) ==> Valid()
    {
      var rows := departmentData;
      var out: seq<Department> := [];
      var i := 0;
      while i < |rows|
        invariant 0 <= i <= |rows| && |out| == i
        invariant forall k :: 0 <= k < i ==> out[k] == (if rows[k].id == id then WithQuota(rows[k], currentValue) else rows[k])
      {
        var d := rows[i];
        if d.id == id {
          d := WithQuota(d, currentValue);
        }
        out := out + [d];
        i := i + 1;
      }
      departmentData := out;
      editingId := None;
      if WellFormed(rows) {
        SaveKeepsWellFormed(rows, id, currentValue);
      }
    }
  }
}
