# Employee knowledge base: query layer

A Dafny model of the six query operations of the employee knowledge-base
server (`modules/module_03_mcp/mcp_server.py`). The server holds a fixed
directory of employee records keyed by id and answers these queries:

- look up one record by id (`get_employee_by_id`);
- fuzzy search by name with a ranked, optionally capped id list
  (`search_employee_by_name`);
- case-insensitive department filter (`search_employees_by_department`);
- salary range filter, sorted by salary (`get_salary_range`);
- manager and direct reports of one employee (`get_employee_hierarchy`);
- per-department count, total, average and names
  (`get_department_statistics`).

Every operation is a pure function of the directory. The directory is a
parameter (`Employees.Directory`): a sequence of `(id, record)` entries in
dict iteration order, with pairwise distinct ids. `SampleData.Sample` is the
five hardcoded records. Each reply envelope is a `Result`: `Success` carries
the payload, and `Failure` carries the error text.

Modules:

- `Envelope`: `Option` and `Result`.
- `Seqs`: order-preserving filter and map, sub-sequences, distinctness.
- `Text`: ASCII `lower`, `strip`, `split()`, substring test, `startswith`.
- `StableSort`: a stable descending insertion sort. It computes the same
  list as Python's stable `list.sort(key=..., reverse=True)`.
- `Employees`: records, entries, the directory, id lookup.
- `NameSearch`: the scoring chain, the filter, the sort and the cap.
- `Queries`: id lookup, the department filter, the salary range and the
  hierarchy.
- `DepartmentStats`: the grouping loop, and a reference definition it is
  proved against.
- `ScoreExamples`: what the uncapped partial score allows.
- `SampleData`: facts about the five hardcoded records.

Three behaviours of the code are easy to misread, and the model states
each of them as a lemma:

- **Rule order.** The scoring chain tests, in this order: exact match (100),
  substring (80), every query word in the name (60), some query word in the
  name (40), name starts with the query (70), then the partial-overlap count
  (20 + 10k). The starts-with test (70) comes after the substring test (80),
  and a prefix is always a substring, so the 70 branch never fires
  (`NameSearch.PrefixRuleNeverFires`).
- **Score range.** The partial score 20 + 10k has no upper bound, because k
  counts query words. So a record named exactly like the query (100) can be
  ranked after another record: a record named "x" is listed before one
  named like a query of nine or more words "xa"
  (`ScoreExamples.ExactMatchOutranked`).
- **The cap.** `if max_results:` treats 0 like `None`, so 0 means no cap
  (`NameSearch.Cap`).

## Model

| member | source | states |
|---|---|---|
| Employees.Find | modules/module_03_mcp/mcp_server.py:62-65 | the lookup finds an entry exactly when the id is a key, and then it is the entry with that id |
| Queries.GetEmployeeById | modules/module_03_mcp/mcp_server.py:62-71 | succeeds iff the id is present, with exactly the stored record; otherwise fails with "Employee with ID <id> not found" |
| NameSearch.SearchByName | modules/module_03_mcp/mcp_server.py:85-144 | fails with "Name query cannot be empty" iff the query is empty or all whitespace; on success it echoes the raw query, count equals the number of ids, and the ids are a prefix of the full ranking; with `None` or 0 that prefix is the whole ranking, and with a positive cap n its length is min(n, number of matches) |
| NameSearch.Classify | modules/module_03_mcp/mcp_server.py:98-124 | the first-match-wins chain in source order; a partial result counts between 1 and the number of query words |
| NameSearch.PartialMatches | modules/module_03_mcp/mcp_server.py:115-122 | the nested loop with `break` adds at most one per query word, and is positive iff some query word overlaps some name word in either direction |
| NameSearch.ScoreValues | modules/module_03_mcp/mcp_server.py:95-124 | `Score` (the points of `Classify`) against the lower-cased name, which `ScoreOf` pairs with the record's id: a score is 0, 40, 60, 80, 100 or 20 + 10k with 1 <= k <= number of query words (no cap at 100), and is 0 iff no branch fired |
| NameSearch.PrefixRuleNeverFires | modules/module_03_mcp/mcp_server.py:102-112 | the starts-with branch is never the one that fires |
| NameSearch.PrefixScoresAsSubstring | modules/module_03_mcp/mcp_server.py:99-112 | a name starting with the query takes the exact rule (100) if equal to it and the substring rule (80) otherwise, never the starts-with rule (70) |
| NameSearch.FallbackOnlyNameWordsInQueryWords | modules/module_03_mcp/mcp_server.py:105-122 | in the final `else`, no query word lies inside a name word, so every partial match comes from a name word inside a query word |
| NameSearch.NormalizedQueryHasWords | modules/module_03_mcp/mcp_server.py:85-91 | a query that passes validation normalises (`Normalize`, i.e. `lower()` then `strip()`) to a non-empty string with at least one word |
| NameSearch.DefaultCapsAtTen | modules/module_03_mcp/mcp_server.py:74 | leaving out `max_results` (default 10) lists the first min(10, number of matches) ids of the ranking |
| NameSearch.Cap | modules/module_03_mcp/mcp_server.py:135-137 | `None` and 0 leave the list whole; a positive n keeps the first min(n, length) matches; the result is always a prefix |
| NameSearch.RankedMembers | modules/module_03_mcp/mcp_server.py:94-133 | `Ranked` sorts `Scored`, which keeps the `score > 0` entries of `ScoreOf` over every record in directory order; the ranked list holds exactly the records with a positive score, each with its own score |
| NameSearch.RankedIdsDistinct | modules/module_03_mcp/mcp_server.py:94-133 | no id is ranked twice |
| NameSearch.RankedTiesInDirectoryOrder | modules/module_03_mcp/mcp_server.py:133 | for every score, the ids ranked with that score keep their directory order |
| NameSearch.RankedIdsMembers | modules/module_03_mcp/mcp_server.py:126-143 | the uncapped id list is duplicate-free, and every id is a key whose normalised name scores positively |
| NameSearch.SearchByNameIds | modules/module_03_mcp/mcp_server.py:126-143 | the returned ids, capped or not, are distinct keys whose names score positively |
| NameSearch.RankedIdsOrder | modules/module_03_mcp/mcp_server.py:126-143 | over the uncapped id list, each id's record scores at least as high as every later id's, and two ids with equal scores appear in directory order |
| NameSearch.SearchByNameOrder | modules/module_03_mcp/mcp_server.py:133-143 | the returned ids, capped or not, come highest score first, and ids with equal scores keep directory order |
| Text.Strip | modules/module_03_mcp/mcp_server.py:85 | `strip()` is empty iff the string is all whitespace; it is the slice that starts after the leading whitespace and is followed only by whitespace, and it neither starts nor ends with whitespace |
| Text.Lower | modules/module_03_mcp/mcp_server.py:91 | `lower()` keeps the length and maps every character on its own |
| Text.SplitWords | modules/module_03_mcp/mcp_server.py:105 | `split()` yields non-empty words without whitespace, and no words iff the string is all whitespace; which words it yields is fixed by the three equations below |
| Text.SplitEmpty | modules/module_03_mcp/mcp_server.py:105 | the empty string splits into no words |
| Text.SplitBlankThenRest | modules/module_03_mcp/mcp_server.py:105 | a leading whitespace character is dropped: it does not change the words |
| Text.SplitWordThenRest | modules/module_03_mcp/mcp_server.py:105 | a non-empty run without whitespace, followed by the end or by whitespace, is the first word, and the words of the rest follow it |
| Text.SplitWordsOccur | modules/module_03_mcp/mcp_server.py:115-116 | every word `split()` returns is a substring of the split string |
| Text.ContainsAt | modules/module_03_mcp/mcp_server.py:102 | `query in name` holds iff the query occurs at some offset of the name |
| StableSort.SortDesc | modules/module_03_mcp/mcp_server.py:133 | the sort output is non-increasing in the key and is a permutation of the input |
| StableSort.SortDescStable | modules/module_03_mcp/mcp_server.py:133 | for every key value, the elements with that key come out in their input order |
| StableSort.SortDescDistinctBy | modules/module_03_mcp/mcp_server.py:197 | sorting never makes two elements agree on an attribute they differed on |
| Queries.SearchByDepartment | modules/module_03_mcp/mcp_server.py:158-170 | always succeeds with count equal to the list length; lists exactly the records whose department equals the argument ignoring case, in directory order |
| Queries.GetSalaryRange | modules/module_03_mcp/mcp_server.py:184-203 | always succeeds, and count equals the number of rows |
| Queries.SalaryRowsSound | modules/module_03_mcp/mcp_server.py:184-197 | `SalaryRows` sorts the projections of `InRange`, the records within the bounds in directory order; the rows come highest salary first, and each is the projection of a record with min <= salary <= max (an absent bound does not apply) |
| Queries.SalaryRowsComplete | modules/module_03_mcp/mcp_server.py:184-194 | every record within the bounds has its projection listed |
| Queries.SalaryRowsDistinct | modules/module_03_mcp/mcp_server.py:185-194 | no two rows carry the same id |
| Queries.SalaryTiesInDirectoryOrder | modules/module_03_mcp/mcp_server.py:197 | rows with equal salaries keep directory order |
| Queries.ManagerOf | modules/module_03_mcp/mcp_server.py:225-231 | a manager is reported iff the manager id is present, non-empty and a key, and it is then that record's id, name and role |
| Queries.DirectReports | modules/module_03_mcp/mcp_server.py:234-241 | lists exactly the records whose manager is the given id, projected, in directory order |
| Queries.GetEmployeeHierarchy | modules/module_03_mcp/mcp_server.py:216-252 | fails iff the id is absent, with "Employee with ID <id> not found"; otherwise it returns the employee's id, name and role, the resolved manager, and exactly the direct reports in directory order |
| DepartmentStats.DeptIndex | modules/module_03_mcp/mcp_server.py:266 | the position of a department key, or the list length when it is not a key yet |
| DepartmentStats.DepartmentStatistics | modules/module_03_mcp/mcp_server.py:262-290 | always succeeds; one entry per department that occurs, no department twice, each with its records' count, salary total and names in directory order; the counts add up to the number of records |
| DepartmentStats.AccumulateSummarizes | modules/module_03_mcp/mcp_server.py:264-275 | the grouping loop (`Accumulate`, one `AddRecord` per record) keeps "these entries summarise the records seen so far" as an invariant |
| DepartmentStats.AddRecordSummarizes | modules/module_03_mcp/mcp_server.py:264-275 | one iteration of the loop (`AddRecord`) turns statistics of the records seen so far into statistics of those records plus one more |
| DepartmentStats.AddRecordShape | modules/module_03_mcp/mcp_server.py:266-275 | `AddRecord` appends a zeroed entry only when the department is not yet a key, then changes only that department's entry, into `Tally` of it; every other entry is unchanged |
| DepartmentStats.TallyDescribes | modules/module_03_mcp/mcp_server.py:273-275 | `Tally` (count plus one, salary added, name appended) keeps an entry describing exactly its department's records once the record is added |
| DepartmentStats.AccumulateCounts | modules/module_03_mcp/mcp_server.py:264-273 | the per-department counts add up to the number of records |
| DepartmentStats.CountsPositive | modules/module_03_mcp/mcp_server.py:264-282 | every entry of the result has a positive count, because a key is created only by a record of that department, so the average never divides by zero |
| DepartmentStats.AverageSalary | modules/module_03_mcp/mcp_server.py:282 | the average times the count is the total |
| ScoreExamples.PartialScoreUnbounded | modules/module_03_mcp/mcp_server.py:114-124 | against the name "x", a query of k words "xa" takes the partial branch with all k words matching and scores 20 + 10k |
| ScoreExamples.ExactMatchOutranked | modules/module_03_mcp/mcp_server.py:98-133 | with nine or more query words, a record named exactly like the query (100) is ranked after one that scores 20 + 10k |
| SampleData.SampleAliceSubstring | modules/module_03_mcp/mcp_server.py:91-103 | the query "Alice" normalises to "alice", which takes the substring rule against "alice johnson", so Alice's record scores 80 |
| SampleData.SampleSalaryFloor | modules/module_03_mcp/mcp_server.py:8-49 | over the five hardcoded records, a minimum of 100000 lists Eva then Alice |
| SampleData.BoundsKeepTwo | modules/module_03_mcp/mcp_server.py:184-197 | when exactly two records with different ids and salaries are within the bounds, the listing is those two, higher salary first |
| SampleData.SampleHierarchyOfEva | modules/module_03_mcp/mcp_server.py:8-49 | over the five hardcoded records, EMP005 (Eva) has no resolved manager, because EMP008 is not a key, and her direct reports are Alice then David |
| SampleData.HierarchyWithTwoReports | modules/module_03_mcp/mcp_server.py:216-252 | when a record's manager does not resolve and exactly two records report to it, the hierarchy is that record, no manager, and those two reports in directory order |

## Left out

- The FastMCP server, its tool registration and the HTTP transport (lines 1-5, 51, 292-298) are not modelled. They are I/O.
- The module-level `EMPLOYEE_DATA` dict is a parameter of every operation, not a global.
- Reply dicts are datatypes, and the `success` flag is the `Result` constructor. `get_employee_by_id` returns the stored dict object itself, and that aliasing is not modelled.
- Text.Lower: only ASCII letters are lower-cased. Python's Unicode case mapping is not modelled.
- Text.IsSpace: only the ASCII whitespace Python's `str.isspace` accepts is whitespace. Unicode spaces are not.
- NameSearch.Cap: `max_results` is `Option<nat>`. A negative value, which Python would slice from the end, and non-integer values are not modelled.
- DepartmentStats.AverageSalary: `/` is a float division in the source. The model states the exact rational average, not its rounding to a double.
- DepartmentStats.DepartmentStatistics: the keys are produced in first-appearance order, but that order is not stated. The contract says which keys exist and what each holds.
- Queries.GetSalaryRange: the contract fixes the count and ties the rows to the salary listing. What the rows are is stated by the Queries.SalaryRows* lemmas, not by this function's contract.
- Type errors from callers (a non-string query, a non-integer bound) are not modelled. Salaries are integers.
