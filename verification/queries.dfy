/** The lookup and filter operations over the directory:
    `get_employee_by_id`, `search_employees_by_department`,
    `get_salary_range` and `get_employee_hierarchy`. */
module Queries {
  import opened Envelope
  import opened Seqs
  import opened StableSort
  import opened Text
  import opened Employees

  // ---------------------------------------------------------------------
  // get_employee_by_id

  function GetEmployeeById(dir: Directory, id: string): (r: Result<Record>)
    ensures r.Success? <==> HasId(dir, id)
    ensures forall i :: 0 <= i < |dir| && dir[i].id == id ==> r == Success(dir[i].record)
    ensures r.Failure? ==> r.error == NotFoundMessage(id)
  {
    match Find(dir, id)
    case Some(e) => Success(e.record)
    case None => Failure(NotFoundMessage(id))
  }

  // ---------------------------------------------------------------------
  // search_employees_by_department

  /** The success payload: a count and the matching `{"id": ..., **record}`. */
  datatype Roster = Roster(count: nat, employees: seq<Entry>)

  predicate SameDepartment(e: Entry, department: string)
  {
    Lower(e.record.department) == Lower(department)
  }

  function SearchByDepartment(dir: Directory, department: string): (r: Result<Roster>)
    ensures r.Success?
    ensures r.value.count == |r.value.employees|
    ensures forall k :: 0 <= k < |r.value.employees| ==>
              r.value.employees[k] in dir && SameDepartment(r.value.employees[k], department)
    ensures forall i :: 0 <= i < |dir| && SameDepartment(dir[i], department) ==> dir[i] in r.value.employees
    ensures Subseq(r.value.employees, dir)
  {
    var employees := Filter(dir, (e: Entry) => SameDepartment(e, department));
    Success(Roster(|employees|, employees))
  }

  // ---------------------------------------------------------------------
  // get_salary_range

  /** The projection `{"id", "name", "department", "salary"}`. */
  datatype SalaryRow = SalaryRow(id: string, name: string, department: string, salary: int)

  function RowOf(e: Entry): SalaryRow
  {
    SalaryRow(e.id, e.record.name, e.record.department, e.record.salary)
  }

  function RowSalary(row: SalaryRow): int { row.salary }

  function RowId(row: SalaryRow): string { row.id }

  /** `(min is None or salary >= min) and (max is None or salary <= max)`. */
  predicate InBounds(salary: int, minSalary: Option<int>, maxSalary: Option<int>)
  {
    (minSalary.None? || salary >= minSalary.value) && (maxSalary.None? || salary <= maxSalary.value)
  }

  predicate EntryInBounds(e: Entry, minSalary: Option<int>, maxSalary: Option<int>)
  {
    InBounds(e.record.salary, minSalary, maxSalary)
  }

  /** The success payload: a count and the projected rows. */
  datatype SalaryList = SalaryList(count: nat, employees: seq<SalaryRow>)

  /** The records within the bounds, in directory order. */
  function InRange(dir: Directory, minSalary: Option<int>, maxSalary: Option<int>): seq<Entry>
  {
    Filter(dir, (e: Entry) => EntryInBounds(e, minSalary, maxSalary))
  }

  /** The rows of the records within the bounds, highest salary first. */
  function SalaryRows(dir: Directory, minSalary: Option<int>, maxSalary: Option<int>): seq<SalaryRow>
  {
    SortDesc(Map(InRange(dir, minSalary, maxSalary), RowOf), RowSalary)
  }

  function GetSalaryRange(dir: Directory, minSalary: Option<int>, maxSalary: Option<int>): (r: Result<SalaryList>)
    ensures r.Success?
    ensures r.value.count == |r.value.employees|
    ensures r.value.employees == SalaryRows(dir, minSalary, maxSalary)
  {
    var rows := SalaryRows(dir, minSalary, maxSalary);
    Success(SalaryList(|rows|, rows))
  }

  /** The rows come highest salary first, and each is the row of an
      in-range record. */
  lemma {:induction false} SalaryRowsSound(dir: Directory, minSalary: Option<int>, maxSalary: Option<int>)
    ensures SortedDesc(SalaryRows(dir, minSalary, maxSalary), RowSalary)
    ensures var rows := SalaryRows(dir, minSalary, maxSalary);
            forall k :: 0 <= k < |rows| ==>
              exists i :: 0 <= i < |dir| && EntryInBounds(dir[i], minSalary, maxSalary) && rows[k] == RowOf(dir[i])
  {
    var hits := InRange(dir, minSalary, maxSalary);
    var selected := Map(hits, RowOf);
    var rows := SalaryRows(dir, minSalary, maxSalary);
    forall k | 0 <= k < |rows|
      ensures exists i :: 0 <= i < |dir| && EntryInBounds(dir[i], minSalary, maxSalary) && rows[k] == RowOf(dir[i])
    {
      SelectedRowSound(dir, minSalary, maxSalary, hits, selected, rows[k]);
    }
  }

  lemma {:induction false} SelectedRowSound(dir: Directory, minSalary: Option<int>, maxSalary: Option<int>,
                         hits: seq<Entry>, selected: seq<SalaryRow>, row: SalaryRow)
    requires forall k :: 0 <= k < |hits| ==> hits[k] in dir && EntryInBounds(hits[k], minSalary, maxSalary)
    requires selected == Map(hits, RowOf)
    requires row in selected
    ensures exists i :: 0 <= i < |dir| && EntryInBounds(dir[i], minSalary, maxSalary) && row == RowOf(dir[i])
  {
    var j :| 0 <= j < |selected| && selected[j] == row;
    assert selected[j] == RowOf(hits[j]);
    var i :| 0 <= i < |dir| && dir[i] == hits[j];
    assert EntryInBounds(dir[i], minSalary, maxSalary) && row == RowOf(dir[i]);
  }

  /** The row of every in-range record is listed. */
  lemma {:induction false} SalaryRowsComplete(dir: Directory, minSalary: Option<int>, maxSalary: Option<int>)
    ensures forall i :: 0 <= i < |dir| && EntryInBounds(dir[i], minSalary, maxSalary) ==>
              RowOf(dir[i]) in SalaryRows(dir, minSalary, maxSalary)
  {
    var hits := InRange(dir, minSalary, maxSalary);
    var selected := Map(hits, RowOf);
    forall i | 0 <= i < |dir| && EntryInBounds(dir[i], minSalary, maxSalary)
      ensures RowOf(dir[i]) in SalaryRows(dir, minSalary, maxSalary)
    {
      var j :| 0 <= j < |hits| && hits[j] == dir[i];
      assert selected[j] == RowOf(dir[i]);
    }
  }

  /** No two rows carry the same id. */
  lemma {:induction false} SalaryRowsDistinct(dir: Directory, minSalary: Option<int>, maxSalary: Option<int>)
    ensures DistinctBy(SalaryRows(dir, minSalary, maxSalary), RowId)
  {
    var hits := InRange(dir, minSalary, maxSalary);
    var selected := Map(hits, RowOf);
    SalaryRowsFacts(dir, hits, selected);
    SortDescDistinctBy(selected, RowSalary, RowId);
  }

  /** Rows with equal salaries keep the directory's order. */
  lemma {:induction false} SalaryTiesInDirectoryOrder(dir: Directory, minSalary: Option<int>, maxSalary: Option<int>)
    ensures var employees := SalaryRows(dir, minSalary, maxSalary);
            forall v :: Subseq(Map(WithKey(employees, RowSalary, v), RowId), Map(dir, EntryId))
  {
    var hits := InRange(dir, minSalary, maxSalary);
    var rows := Map(hits, RowOf);
    var employees := SalaryRows(dir, minSalary, maxSalary);
    SalaryRowsFacts(dir, hits, rows);
    SortDescStable(rows, RowSalary);
    forall v ensures Subseq(Map(WithKey(employees, RowSalary, v), RowId), Map(dir, EntryId)) {
      var w := WithKey(rows, RowSalary, v);
      SubseqMap(w, rows, RowId);
      SubseqTrans(Map(w, RowId), Map(rows, RowId), Map(dir, EntryId));
    }
  }

  /** The projected rows of an order-preserving selection from a directory
      keep the directory's id order and hence its id uniqueness. */
  lemma {:induction false} SalaryRowsFacts(dir: Directory, hits: seq<Entry>, rows: seq<SalaryRow>)
    requires Subseq(hits, dir)
    requires rows == Map(hits, RowOf)
    ensures Subseq(Map(rows, RowId), Map(dir, EntryId))
    ensures DistinctBy(rows, RowId)
  {
    SubseqMap(hits, dir, EntryId);
    assert Map(rows, RowId) == Map(hits, EntryId);
    SubseqDistinct(Map(hits, EntryId), Map(dir, EntryId));
  }

  // ---------------------------------------------------------------------
  // get_employee_hierarchy

  /** The projection `{"id", "name", "role"}`. */
  datatype Person = Person(id: string, name: string, role: string)

  function PersonOf(e: Entry): Person
  {
    Person(e.id, e.record.name, e.record.role)
  }

  /** The success payload: the employee, the resolved manager (`None` for
      Python's `None`) and the direct reports. */
  datatype Hierarchy = Hierarchy(employee: Person, manager: Option<Person>, directReports: seq<Person>)

  /** `employee.get("manager")` is truthy: present and non-empty. */
  predicate HasManagerId(rec: Record)
  {
    rec.manager.Some? && rec.manager.value != ""
  }

  predicate ReportsTo(e: Entry, id: string)
  {
    e.record.manager == Some(id)
  }

  /** The resolved manager: `None` unless the manager id is truthy and a key. */
  function ManagerOf(dir: Directory, rec: Record): (m: Option<Person>)
    ensures m.Some? <==> HasManagerId(rec) && HasId(dir, rec.manager.value)
    ensures forall j :: 0 <= j < |dir| && HasManagerId(rec) && dir[j].id == rec.manager.value ==>
              m == Some(PersonOf(dir[j]))
  {
    if HasManagerId(rec) then
      match Find(dir, rec.manager.value)
      case Some(e) => Some(PersonOf(e))
      case None => None
    else None
  }

  /** The records whose manager is `id`, projected, in directory order. */
  function DirectReports(dir: Directory, id: string): (reports: seq<Person>)
    ensures forall k :: 0 <= k < |reports| ==>
              exists j :: 0 <= j < |dir| && ReportsTo(dir[j], id) && reports[k] == PersonOf(dir[j])
    ensures forall j :: 0 <= j < |dir| && ReportsTo(dir[j], id) ==> PersonOf(dir[j]) in reports
    ensures Subseq(reports, Map(dir, PersonOf))
  {
    var reportEntries := Filter(dir, (x: Entry) => ReportsTo(x, id));
    var reports := Map(reportEntries, PersonOf);
    ReportsSound(dir, id, reportEntries, reports);
    ReportsComplete(dir, id, reportEntries, reports);
    SubseqMap(reportEntries, dir, PersonOf);
    reports
  }

  function GetEmployeeHierarchy(dir: Directory, id: string): (r: Result<Hierarchy>)
    ensures r.Failure? <==> !HasId(dir, id)
    ensures r.Failure? ==> r.error == NotFoundMessage(id)
    ensures forall i :: 0 <= i < |dir| && dir[i].id == id ==>
              && r.Success?
              && r.value.employee == PersonOf(dir[i])
              && (r.value.manager.Some? <==> HasManagerId(dir[i].record) && HasId(dir, dir[i].record.manager.value))
    ensures forall i, j ::
              (0 <= i < |dir| && 0 <= j < |dir| && dir[i].id == id
               && dir[i].record.manager == Some(dir[j].id) && dir[j].id != "") ==>
              r.value.manager == Some(PersonOf(dir[j]))
    ensures r.Success? ==>
              forall k :: 0 <= k < |r.value.directReports| ==>
                exists j :: 0 <= j < |dir| && ReportsTo(dir[j], id) && r.value.directReports[k] == PersonOf(dir[j])
    ensures r.Success? ==>
              forall j :: 0 <= j < |dir| && ReportsTo(dir[j], id) ==> PersonOf(dir[j]) in r.value.directReports
    ensures r.Success? ==> Subseq(r.value.directReports, Map(dir, PersonOf))
  {
    match Find(dir, id)
    case None => Failure(NotFoundMessage(id))
    case Some(e) => Success(Hierarchy(PersonOf(e), ManagerOf(dir, e.record), DirectReports(dir, id)))
  }

  /** Every projected report is the projection of some report. */
  lemma {:induction false} ReportsSound(dir: Directory, id: string, reportEntries: seq<Entry>, reports: seq<Person>)
    requires forall k :: 0 <= k < |reportEntries| ==> reportEntries[k] in dir && ReportsTo(reportEntries[k], id)
    requires reports == Map(reportEntries, PersonOf)
    ensures forall k :: 0 <= k < |reports| ==>
              exists j :: 0 <= j < |dir| && ReportsTo(dir[j], id) && reports[k] == PersonOf(dir[j])
  {
    forall k | 0 <= k < |reports|
      ensures exists j :: 0 <= j < |dir| && ReportsTo(dir[j], id) && reports[k] == PersonOf(dir[j])
    {
      var j :| 0 <= j < |dir| && dir[j] == reportEntries[k];
    }
  }

  /** Every report's projection is listed. */
  lemma {:induction false} ReportsComplete(dir: Directory, id: string, reportEntries: seq<Entry>, reports: seq<Person>)
    requires forall j :: 0 <= j < |dir| && ReportsTo(dir[j], id) ==> dir[j] in reportEntries
    requires reports == Map(reportEntries, PersonOf)
    ensures forall j :: 0 <= j < |dir| && ReportsTo(dir[j], id) ==> PersonOf(dir[j]) in reports
  {
    forall j | 0 <= j < |dir| && ReportsTo(dir[j], id)
      ensures PersonOf(dir[j]) in reports
    {
      var k :| 0 <= k < |reportEntries| && reportEntries[k] == dir[j];
      assert reports[k] == PersonOf(dir[j]);
    }
  }
}
