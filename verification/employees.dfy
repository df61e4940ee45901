/** The employee directory: a Python dict from employee id to record,
    modelled as its items in iteration order with pairwise distinct ids. */
module Employees {
  import opened Envelope

  /** One directory value. `manager` is `Some` when the record has a
      "manager" key; an empty string there counts as no manager. */
  datatype Record = Record(
    name: string,
    department: string,
    role: string,
    salary: int,
    email: string,
    manager: Option<string>)

  /** One `(emp_id, emp_data)` item of the directory. */
  datatype Entry = Entry(id: string, record: Record)

  predicate UniqueIds(d: seq<Entry>)
  {
    forall i, j :: 0 <= i < j < |d| ==> d[i].id != d[j].id
  }

  /** A dict's keys are distinct; its items come in insertion order. */
  type Directory = d: seq<Entry> | UniqueIds(d) witness []

  function EntryId(e: Entry): string { e.id }

  function EntryRecord(e: Entry): Record { e.record }

  predicate HasId(dir: Directory, id: string)
  {
    exists i :: 0 <= i < |dir| && dir[i].id == id
  }

  /** The error text of the two operations that take an employee id. */
  function NotFoundMessage(id: string): string
  {
    "Employee with ID " + id + " not found"
  }

  /** `id in EMPLOYEE_DATA` followed by `EMPLOYEE_DATA[id]`. */
  function Find(dir: Directory, id: string): (r: Option<Entry>)
    ensures r.Some? <==> HasId(dir, id)
    ensures r.Some? ==> r.value.id == id
    ensures forall i :: 0 <= i < |dir| && dir[i].id == id ==> r == Some(dir[i])
    decreases |dir|
  {
    if dir == [] then None
    else if dir[0].id == id then Some(dir[0])
    else
      var rest: Directory := dir[1..];
      var r := Find(rest, id);
      assert forall i :: 0 < i < |dir| ==> dir[i] == rest[i - 1];
      r
  }
}
