/** The five hardcoded records of the directory as a concrete instance, and
    facts about the operations on it. */
module SampleData {
  import opened Envelope
  import opened Seqs
  import opened Employees
  import opened NameSearch
  import opened Queries
  import opened StableSort
  import opened Text

  const Alice := Entry("EMP001", Record("Alice Johnson", "Engineering", "Senior Developer", 120000,
                                        "alice.johnson@company.com", Some("EMP005")))
  const Bob := Entry("EMP002", Record("Bob Smith", "Sales", "Sales Manager", 95000,
                                      "bob.smith@company.com", Some("EMP006")))
  const Carol := Entry("EMP003", Record("Carol White", "HR", "HR Specialist", 75000,
                                        "carol.white@company.com", Some("EMP007")))
  const David := Entry("EMP004", Record("David Brown", "Engineering", "Junior Developer", 80000,
                                        "david.brown@company.com", Some("EMP005")))
  const Eva := Entry("EMP005", Record("Eva Martinez", "Engineering", "Engineering Manager", 150000,
                                      "eva.martinez@company.com", Some("EMP008")))

  const Sample: Directory := [Alice, Bob, Carol, David, Eva]

  /** Searching for "Alice" scores Alice Johnson's record 80: the
      normalised query "alice" is a proper prefix, hence a substring, of the
      lower-cased name. */
  lemma {:induction false} SampleAliceSubstring()
    ensures Normalize("Alice") == "alice"
    ensures Classify(Normalize("Alice"), Lower(Alice.record.name)) == Substring
    ensures ScoreOf(Alice, Normalize("Alice")) == Match("EMP001", 80)
  {
    AliceQueryNormal();
    AliceNameLower();
    AliceNameStartsWithQuery("alice johnson", "alice");
    PrefixScoresAsSubstring("alice", "alice johnson");
  }

  lemma {:induction false} AliceQueryNormal()
    ensures Normalize("Alice") == "alice"
  {
    LowerIs("Alice", "alice");
    StripWithoutEdges("alice");
  }

  lemma {:induction false} AliceNameLower()
    ensures Lower(Alice.record.name) == "alice johnson"
  {
    LowerIs(Alice.record.name, "alice johnson");
  }

  lemma {:induction false} AliceNameStartsWithQuery(name: string, q: string)
    requires name == "alice johnson" && q == "alice"
    ensures q != name && StartsWith(name, q)
  {
    assert |q| < |name|;
  }

  /** A salary floor of 100000 keeps Eva and Alice, highest salary first. */
  lemma {:induction false} SampleSalaryFloor()
    ensures SalaryRows(Sample, Some(100000), None) == [RowOf(Eva), RowOf(Alice)]
  {
    assert Sample[0] == Alice && Sample[4] == Eva;
    assert Eva.id[5] != Alice.id[5];
    OnlyAliceAndEvaEarnEnough();
    BoundsKeepTwo(Sample, Some(100000), None, Eva, Alice);
  }

  lemma {:induction false} OnlyAliceAndEvaEarnEnough()
    ensures forall i :: 0 <= i < |Sample| && EntryInBounds(Sample[i], Some(100000), None) ==>
              Sample[i] == Alice || Sample[i] == Eva
  {
    assert Sample[1].record.salary == 95000;
    assert Sample[2].record.salary == 75000;
    assert Sample[3].record.salary == 80000;
  }

  /** When exactly two records with different ids and salaries lie within the
      bounds, the listing is those two, higher salary first. */
  lemma {:induction false} BoundsKeepTwo(dir: Directory, minSalary: Option<int>, maxSalary: Option<int>, high: Entry, low: Entry)
    requires high in dir && low in dir
    requires EntryInBounds(high, minSalary, maxSalary) && EntryInBounds(low, minSalary, maxSalary)
    requires high.id != low.id && high.record.salary > low.record.salary
    requires forall i :: 0 <= i < |dir| && EntryInBounds(dir[i], minSalary, maxSalary) ==>
               dir[i] == high || dir[i] == low
    ensures SalaryRows(dir, minSalary, maxSalary) == [RowOf(high), RowOf(low)]
  {
    SalaryRowsSound(dir, minSalary, maxSalary);
    SalaryRowsComplete(dir, minSalary, maxSalary);
    SalaryRowsDistinct(dir, minSalary, maxSalary);
    TwoRowsListed(dir, minSalary, maxSalary, high, low, SalaryRows(dir, minSalary, maxSalary));
  }

  lemma {:induction false} TwoRowsListed(dir: Directory, minSalary: Option<int>, maxSalary: Option<int>, high: Entry, low: Entry,
                      rows: seq<SalaryRow>)
    requires high in dir && low in dir
    requires EntryInBounds(high, minSalary, maxSalary) && EntryInBounds(low, minSalary, maxSalary)
    requires high.id != low.id && high.record.salary > low.record.salary
    requires forall i :: 0 <= i < |dir| && EntryInBounds(dir[i], minSalary, maxSalary) ==>
               dir[i] == high || dir[i] == low
    requires SortedDesc(rows, RowSalary)
    requires forall k :: 0 <= k < |rows| ==>
               exists i :: 0 <= i < |dir| && EntryInBounds(dir[i], minSalary, maxSalary) && rows[k] == RowOf(dir[i])
    requires forall i :: 0 <= i < |dir| && EntryInBounds(dir[i], minSalary, maxSalary) ==> RowOf(dir[i]) in rows
    requires DistinctBy(rows, RowId)
    ensures rows == [RowOf(high), RowOf(low)]
  {
    forall k | 0 <= k < |rows| ensures rows[k] == RowOf(high) || rows[k] == RowOf(low) {
      var i :| 0 <= i < |dir| && EntryInBounds(dir[i], minSalary, maxSalary) && rows[k] == RowOf(dir[i]);
    }
    var h :| 0 <= h < |dir| && dir[h] == high;
    var l :| 0 <= l < |dir| && dir[l] == low;
    assert RowOf(high) in rows && RowOf(low) in rows;
    TwoElementsSorted(rows, RowSalary, RowId, RowOf(high), RowOf(low));
  }

  /** Eva manages Alice and David; her own manager EMP008 is not a key. */
  lemma {:induction false} SampleHierarchyOfEva()
    ensures GetEmployeeHierarchy(Sample, "EMP005")
         == Success(Hierarchy(PersonOf(Eva), None, [PersonOf(Alice), PersonOf(David)]))
  {
    assert Sample[0] == Alice && Sample[3] == David && Sample[4] == Eva;
    NoKeyEmp008();
    OnlyAliceAndDavidReportToEva();
    HierarchyWithTwoReports(Sample, "EMP005", 4, 0, 3);
  }

  lemma {:induction false} NoKeyEmp008()
    ensures !HasId(Sample, "EMP008")
  {
    forall i | 0 <= i < |Sample| ensures Sample[i].id != "EMP008" {
      assert Sample[i].id[5] != "EMP008"[5];
    }
  }

  lemma {:induction false} OnlyAliceAndDavidReportToEva()
    ensures forall j :: 0 <= j < |Sample| && ReportsTo(Sample[j], "EMP005") ==> j == 0 || j == 3
  {
    assert "EMP006"[5] != "EMP005"[5] && "EMP007"[5] != "EMP005"[5] && "EMP008"[5] != "EMP005"[5];
  }

  /** The hierarchy of a record whose manager does not resolve and which
      has exactly two reports. */
  lemma {:induction false} HierarchyWithTwoReports(dir: Directory, id: string, ie: nat, ia: nat, ib: nat)
    requires ie < |dir| && dir[ie].id == id
    requires !(HasManagerId(dir[ie].record) && HasId(dir, dir[ie].record.manager.value))
    requires ia < ib < |dir| && ReportsTo(dir[ia], id) && ReportsTo(dir[ib], id)
    requires forall j :: 0 <= j < |dir| && ReportsTo(dir[j], id) ==> j == ia || j == ib
    ensures GetEmployeeHierarchy(dir, id)
         == Success(Hierarchy(PersonOf(dir[ie]), None, [PersonOf(dir[ia]), PersonOf(dir[ib])]))
  {
    var r := GetEmployeeHierarchy(dir, id);
    UnresolvedManager(dir, id, ie);
    assert r.value.directReports == DirectReports(dir, id);
    TwoReportsListed(dir, id, ia, ib, DirectReports(dir, id));
  }

  lemma {:induction false} UnresolvedManager(dir: Directory, id: string, ie: nat)
    requires ie < |dir| && dir[ie].id == id
    requires !(HasManagerId(dir[ie].record) && HasId(dir, dir[ie].record.manager.value))
    ensures GetEmployeeHierarchy(dir, id).Success?
    ensures GetEmployeeHierarchy(dir, id).value.employee == PersonOf(dir[ie])
    ensures GetEmployeeHierarchy(dir, id).value.manager == None
  {
  }

  lemma {:induction false} TwoReportsListed(dir: Directory, id: string, ia: nat, ib: nat, reports: seq<Person>)
    requires ia < ib < |dir| && ReportsTo(dir[ia], id) && ReportsTo(dir[ib], id)
    requires forall j :: 0 <= j < |dir| && ReportsTo(dir[j], id) ==> j == ia || j == ib
    requires reports == DirectReports(dir, id)
    ensures reports == [PersonOf(dir[ia]), PersonOf(dir[ib])]
  {
    var pa, pb := PersonOf(dir[ia]), PersonOf(dir[ib]);
    var ps := Map(dir, PersonOf);
    ProjectionsDistinct(dir, ps);
    SubseqDistinct(reports, ps);
    ReportsAmongTwo(dir, id, ia, ib, reports);
    assert pa in reports && pb in reports && pa != pb;
    TwoInOrder(reports, ps, ia, ib);
  }

  lemma {:induction false} ProjectionsDistinct(dir: Directory, ps: seq<Person>)
    requires |ps| == |dir| && forall i :: 0 <= i < |dir| ==> ps[i] == PersonOf(dir[i])
    ensures Distinct(ps)
  {
    assert forall i, j :: 0 <= i < j < |ps| ==> ps[i].id != ps[j].id;
  }

  lemma {:induction false} ReportsAmongTwo(dir: Directory, id: string, ia: nat, ib: nat, reports: seq<Person>)
    requires ia < ib < |dir|
    requires forall j :: 0 <= j < |dir| && ReportsTo(dir[j], id) ==> j == ia || j == ib
    requires forall k :: 0 <= k < |reports| ==>
               exists j :: 0 <= j < |dir| && ReportsTo(dir[j], id) && reports[k] == PersonOf(dir[j])
    ensures forall k :: 0 <= k < |reports| ==> reports[k] == PersonOf(dir[ia]) || reports[k] == PersonOf(dir[ib])
  {
    forall k | 0 <= k < |reports| ensures reports[k] == PersonOf(dir[ia]) || reports[k] == PersonOf(dir[ib]) {
      var j :| 0 <= j < |dir| && ReportsTo(dir[j], id) && reports[k] == PersonOf(dir[j]);
    }
  }

  /** Two values listed in a sub-sequence of a duplicate-free sequence keep
      that sequence's order. */
  lemma {:induction false} TwoInOrder(reports: seq<Person>, ps: seq<Person>, ia: nat, ib: nat)
    requires ia < ib < |ps| && Distinct(ps) && Subseq(reports, ps) && Distinct(reports)
    requires ps[ia] in reports && ps[ib] in reports
    requires forall k :: 0 <= k < |reports| ==> reports[k] == ps[ia] || reports[k] == ps[ib]
    ensures reports == [ps[ia], ps[ib]]
  {
    DistinctOfTwo(reports, ps[ia], ps[ib]);
    SubseqOrder(reports, ps, 0, 1);
    var i, j :| 0 <= i < j < |ps| && ps[i] == reports[0] && ps[j] == reports[1];
    assert reports[0] == ps[ia];
  }
}
