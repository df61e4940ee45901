/** `get_department_statistics`: one pass over the records that groups them
    by department, counting them, summing their salaries and collecting their
    names; departments appear in the order they are first met. */
module DepartmentStats {
  import opened Envelope
  import opened Seqs
  import opened Employees

  /** One entry of the result's `departments` dict. */
  datatype DeptStats = DeptStats(department: string, employeeCount: nat, totalSalary: int, employees: seq<string>)

  /** Index of `department` in `stats`, or `|stats|` when it is not a key yet. */
  function DeptIndex(stats: seq<DeptStats>, department: string): (k: nat)
    ensures k <= |stats|
    ensures k < |stats| ==> stats[k].department == department
    ensures forall j :: 0 <= j < k ==> stats[j].department != department
  {
    if stats == [] || stats[0].department == department then 0
    else 1 + DeptIndex(stats[1..], department)
  }

  /** `count += 1; total_salary += salary; employees.append(name)`. */
  function Tally(s: DeptStats, rec: Record): DeptStats
  {
    DeptStats(s.department, s.employeeCount + 1, s.totalSalary + rec.salary, s.employees + [rec.name])
  }

  /** One loop iteration: create the department's zeroed entry if needed,
      then tally the record into it. */
  function AddRecord(stats: seq<DeptStats>, rec: Record): seq<DeptStats>
  {
    var k := DeptIndex(stats, rec.department);
    var keyed := if k == |stats| then stats + [DeptStats(rec.department, 0, 0, [])] else stats;
    keyed[k := Tally(keyed[k], rec)]
  }

  /** The loop over `EMPLOYEE_DATA.values()`. */
  function Accumulate(recs: seq<Record>): seq<DeptStats>
    decreases |recs|
  {
    if recs == [] then [] else AddRecord(Accumulate(recs[..|recs| - 1]), recs[|recs| - 1])
  }

  function DepartmentStatistics(dir: Directory): (r: Result<seq<DeptStats>>)
    ensures r.Success?
    ensures Summarizes(r.value, Map(dir, EntryRecord))
    ensures TotalCount(r.value) == |dir|
  {
    var recs := Map(dir, EntryRecord);
    AccumulateSummarizes(recs);
    AccumulateCounts(recs);
    Success(Accumulate(recs))
  }

  /** Every key is created by a record of its department, so every count is
      positive and the average never divides by zero. */
  lemma {:induction false} CountsPositive(dir: Directory)
    ensures forall i :: 0 <= i < |DepartmentStatistics(dir).value| ==>
              DepartmentStatistics(dir).value[i].employeeCount > 0
  {
    var st := DepartmentStatistics(dir).value;
    var recs := Map(dir, EntryRecord);
    forall i | 0 <= i < |st| ensures st[i].employeeCount > 0 {
      assert HasDepartment(recs, st[i].department) && Describes(st[i], recs);
      var m :| 0 <= m < |recs| && recs[m].department == st[i].department;
      assert recs[m] in Members(recs, st[i].department);
    }
  }

  /** `total_salary / count` over exact rationals. */
  function AverageSalary(s: DeptStats): (avg: real)
    requires s.employeeCount > 0
    ensures avg * s.employeeCount as real == s.totalSalary as real
  {
    s.totalSalary as real / s.employeeCount as real
  }

  // ---------------------------------------------------------------------
  // Reference definition

  function RecordName(rec: Record): string { rec.name }

  predicate InDepartment(rec: Record, department: string) { rec.department == department }

  /** The records of one department, in directory order. */
  function Members(recs: seq<Record>, department: string): seq<Record>
  {
    Filter(recs, (rec: Record) => InDepartment(rec, department))
  }

  function TotalSalary(recs: seq<Record>): int
  {
    if recs == [] then 0 else recs[0].salary + TotalSalary(recs[1..])
  }

  function TotalCount(stats: seq<DeptStats>): int
  {
    if stats == [] then 0 else stats[0].employeeCount + TotalCount(stats[1..])
  }

  /** An entry is right for `recs` when its count, total and name list are
      those of the records in its department. */
  ghost predicate Describes(s: DeptStats, recs: seq<Record>)
  {
    var members := Members(recs, s.department);
    s.employeeCount == |members| && s.totalSalary == TotalSalary(members)
    && s.employees == Map(members, RecordName)
  }

  ghost predicate HasDepartment(recs: seq<Record>, department: string)
  {
    exists i :: 0 <= i < |recs| && recs[i].department == department
  }

  /** `stats` is the statistics of `recs`: one entry per department that some
      record has, each describing exactly that department's records. */
  ghost predicate Summarizes(stats: seq<DeptStats>, recs: seq<Record>)
  {
    DistinctDepartments(stats) && KeysFromRecords(stats, recs)
    && CoversRecords(stats, recs) && AllDescribe(stats, recs)
  }

  /** Each department is a key at most once. */
  ghost predicate DistinctDepartments(stats: seq<DeptStats>)
  {
    forall i, j :: 0 <= i < j < |stats| ==> stats[i].department != stats[j].department
  }

  /** Each key is the department of some record. */
  ghost predicate KeysFromRecords(stats: seq<DeptStats>, recs: seq<Record>)
  {
    forall i :: 0 <= i < |stats| ==> HasDepartment(recs, stats[i].department)
  }

  /** Each record's department is a key. */
  ghost predicate CoversRecords(stats: seq<DeptStats>, recs: seq<Record>)
  {
    forall k :: 0 <= k < |recs| ==> DeptIndex(stats, recs[k].department) < |stats|
  }

  ghost predicate AllDescribe(stats: seq<DeptStats>, recs: seq<Record>)
  {
    forall i :: 0 <= i < |stats| ==> Describes(stats[i], recs)
  }

  // ---------------------------------------------------------------------
  // Proofs

  lemma {:induction false} TotalSalarySnoc(recs: seq<Record>, rec: Record)
    ensures TotalSalary(recs + [rec]) == TotalSalary(recs) + rec.salary
    decreases |recs|
  {
    if recs == [] {
      assert [] + [rec] == [rec];
    } else {
      assert (recs + [rec])[1..] == recs[1..] + [rec];
      TotalSalarySnoc(recs[1..], rec);
    }
  }

  lemma {:induction false} MembersSnoc(recs: seq<Record>, rec: Record, department: string)
    ensures Members(recs + [rec], department)
         == Members(recs, department) + (if rec.department == department then [rec] else [])
  {
    FilterSnoc(recs, rec, (r: Record) => InDepartment(r, department));
  }

  lemma {:induction false} TotalCountSnoc(stats: seq<DeptStats>, s: DeptStats)
    ensures TotalCount(stats + [s]) == TotalCount(stats) + s.employeeCount
    decreases |stats|
  {
    if stats == [] {
      assert [] + [s] == [s];
    } else {
      assert (stats + [s])[1..] == stats[1..] + [s];
      TotalCountSnoc(stats[1..], s);
    }
  }

  lemma {:induction false} TotalCountUpdate(stats: seq<DeptStats>, k: nat, s: DeptStats)
    requires k < |stats|
    ensures TotalCount(stats[k := s]) == TotalCount(stats) - stats[k].employeeCount + s.employeeCount
    decreases |stats|
  {
    if k > 0 {
      assert stats[k := s][1..] == stats[1..][k - 1 := s];
      TotalCountUpdate(stats[1..], k - 1, s);
    }
  }

  /** The counts add up to the number of records. */
  lemma {:induction false} AccumulateCounts(recs: seq<Record>)
    ensures TotalCount(Accumulate(recs)) == |recs|
    decreases |recs|
  {
    if recs != [] {
      var front, rec := recs[..|recs| - 1], recs[|recs| - 1];
      AccumulateCounts(front);
      var stats := Accumulate(front);
      var k := DeptIndex(stats, rec.department);
      var keyed := if k == |stats| then stats + [DeptStats(rec.department, 0, 0, [])] else stats;
      if k == |stats| {
        TotalCountSnoc(stats, DeptStats(rec.department, 0, 0, []));
      }
      TotalCountUpdate(keyed, k, Tally(keyed[k], rec));
    }
  }

  /** The loop keeps `Summarizes` as an invariant. */
  lemma {:induction false} AccumulateSummarizes(recs: seq<Record>)
    ensures Summarizes(Accumulate(recs), recs)
    decreases |recs|
  {
    if recs != [] {
      var front, rec := recs[..|recs| - 1], recs[|recs| - 1];
      assert recs == front + [rec];
      AccumulateSummarizes(front);
      AddRecordSummarizes(Accumulate(front), front, rec);
    }
  }

  lemma {:induction false} AddRecordSummarizes(stats: seq<DeptStats>, recs: seq<Record>, rec: Record)
    requires Summarizes(stats, recs)
    ensures Summarizes(AddRecord(stats, rec), recs + [rec])
  {
    AddRecordShape(stats, rec);
    AddRecordKeepsDistinct(stats, rec);
    AddRecordKeysFromRecords(stats, recs, rec);
    AddRecordCovers(stats, recs, rec);
    AddRecordDescribes(stats, recs, rec);
  }

  /** What one iteration changes: at most one new key at the end, and only
      the entry of the record's department. */
  lemma {:induction false} AddRecordShape(stats: seq<DeptStats>, rec: Record)
    ensures var k := DeptIndex(stats, rec.department);
            var next := AddRecord(stats, rec);
            && |next| == (if k == |stats| then |stats| + 1 else |stats|)
            && next[k] == Tally(if k == |stats| then DeptStats(rec.department, 0, 0, []) else stats[k], rec)
            && (forall i :: 0 <= i < |stats| && i != k ==> next[i] == stats[i])
            && (forall i :: 0 <= i < |next| ==> next[i].department == if i < |stats| then stats[i].department else rec.department)
  {
  }

  lemma {:induction false} AddRecordKeepsDistinct(stats: seq<DeptStats>, rec: Record)
    requires DistinctDepartments(stats)
    ensures DistinctDepartments(AddRecord(stats, rec))
  {
    AddRecordShape(stats, rec);
  }

  lemma {:induction false} AddRecordKeysFromRecords(stats: seq<DeptStats>, recs: seq<Record>, rec: Record)
    requires KeysFromRecords(stats, recs)
    ensures KeysFromRecords(AddRecord(stats, rec), recs + [rec])
  {
    AddRecordShape(stats, rec);
    var next, all := AddRecord(stats, rec), recs + [rec];
    forall i | 0 <= i < |next| ensures HasDepartment(all, next[i].department) {
      if i < |stats| {
        var m :| 0 <= m < |recs| && recs[m].department == stats[i].department;
        assert all[m] == recs[m];
      } else {
        assert all[|recs|] == rec;
      }
    }
  }

  lemma {:induction false} AddRecordCovers(stats: seq<DeptStats>, recs: seq<Record>, rec: Record)
    requires CoversRecords(stats, recs)
    ensures CoversRecords(AddRecord(stats, rec), recs + [rec])
  {
    AddRecordShape(stats, rec);
    var next, all := AddRecord(stats, rec), recs + [rec];
    var k := DeptIndex(stats, rec.department);
    forall m | 0 <= m < |all| ensures DeptIndex(next, all[m].department) < |next| {
      if m < |recs| {
        assert all[m] == recs[m];
        DeptIndexUnchanged(stats, next, recs[m].department);
      } else if k < |stats| {
        DeptIndexUnchanged(stats, next, rec.department);
      } else {
        var keyed := stats + [DeptStats(rec.department, 0, 0, [])];
        DeptIndexUnchanged(keyed, next, rec.department);
      }
    }
  }

  lemma {:induction false} AddRecordDescribes(stats: seq<DeptStats>, recs: seq<Record>, rec: Record)
    requires Summarizes(stats, recs)
    ensures AllDescribe(AddRecord(stats, rec), recs + [rec])
  {
    AddRecordShape(stats, rec);
    var next := AddRecord(stats, rec);
    var k := DeptIndex(stats, rec.department);
    forall i | 0 <= i < |next| ensures Describes(next[i], recs + [rec]) {
      if i == k {
        if k == |stats| {
          MembersEmpty(stats, recs, rec.department);
          TallyDescribes(DeptStats(rec.department, 0, 0, []), recs, rec);
        } else {
          TallyDescribes(stats[k], recs, rec);
        }
      } else {
        OtherDepartmentDescribes(stats[i], recs, rec);
      }
    }
  }

  lemma {:induction false} TallyDescribes(s: DeptStats, recs: seq<Record>, rec: Record)
    requires Describes(s, recs) && s.department == rec.department
    ensures Describes(Tally(s, rec), recs + [rec])
  {
    var members := Members(recs, s.department);
    MembersSnoc(recs, rec, s.department);
    TotalSalarySnoc(members, rec);
    MapSnoc(members, rec, RecordName);
  }

  lemma {:induction false} OtherDepartmentDescribes(s: DeptStats, recs: seq<Record>, rec: Record)
    requires Describes(s, recs) && s.department != rec.department
    ensures Describes(s, recs + [rec])
  {
    MembersSnoc(recs, rec, s.department);
    assert Members(recs, s.department) + [] == Members(recs, s.department);
  }

  /** Renaming nothing: an index lookup only depends on the departments. */
  lemma {:induction false} DeptIndexUnchanged(a: seq<DeptStats>, b: seq<DeptStats>, department: string)
    requires |a| <= |b|
    requires forall i :: 0 <= i < |a| ==> a[i].department == b[i].department
    requires DeptIndex(a, department) < |a|
    ensures DeptIndex(b, department) == DeptIndex(a, department)
    decreases |a|
  {
    if a[0].department != department {
      DeptIndexUnchanged(a[1..], b[1..], department);
    }
  }

  /** A department that is not a key yet has no records. */
  lemma {:induction false} MembersEmpty(stats: seq<DeptStats>, recs: seq<Record>, department: string)
    requires Summarizes(stats, recs)
    requires DeptIndex(stats, department) == |stats|
    ensures Members(recs, department) == []
  {
  }
}
