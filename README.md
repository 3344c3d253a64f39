# Employee reporting structure and compensation rules, in Dafny

This project models the logic of an employee-management service: the report
counter behind the reporting-structure view, the loader step that links seeded
employees to their direct reports, and the rules for creating compensation
records. The rest of the service (HTTP, dependency injection, the ORM) is
conventional CRUD plumbing and is not modelled.

- `wrappers.dfy` (`Wrappers`): `Option` stands for a C# `null`, and `Result` and
  `Outcome` stand for an exception.
- `models.dfy` (`Models`): the entities. An employee appears in two forms:
  - `Employee` is a value. It is the finite tree handed to the report counter.
    Its direct-report list is `NoList` (a null list) or a `ReportList` whose
    entries may be null.
  - `EmployeeEntity` is an object. It is the tracked entity whose
    `directReports` field the seed loader reassigns. After fix-up, lists share
    the objects of the loaded list, so these cannot be tree values.
- `reporting.dfy` (`Reporting`): `GetReportCount` is a `while` loop over an
  explicit stack (a local `seq`, popped and pushed at its end). It is proved to
  return `ReportsUnder(root)`, the number of entries in all reached lists. A
  lemma equates that with the headcount of the subtree minus the root. The
  loop invariant is `count + ReportsUnderAll(stack) == ReportsUnder(root)`.
  The loop terminates because `ReportsUnderAll(stack) + |stack|` drops by one
  on every pop.
- `data.dfy` (`Data`): `FixUpReferences` rewrites each loaded employee's list
  in place. It is proved against the specification function `Resolve`. The
  proof also covers these cases:
  - The same object appears twice in the list. Fixing up a fixed-up list
    changes nothing (`ResolveIdempotent`).
  - The run stops part-way when `First` throws. The employees before the
    failing one keep their rewritten lists and the rest keep their old ones.

  `Seed` runs the fix-up and stores the list, but only into an empty store.
- `repositories.dfy` (`Repositories`): `CompensationRepository` holds the
  compensation table as a `seq`, because a table can hold duplicates. The
  invariant "at most one record per employee" is therefore a real property
  (`OnePerEmployee`). The duplicate check returns null for the empty id, so the
  repository alone only guarantees uniqueness for non-empty ids.
- `services.dfy` (`Services`): `CompensationService.Create` rejects the empty
  id before it reaches the repository. Its invariant is therefore full
  uniqueness (`ServiceTableHasOnePerEmployee`).

## Model

| member | source | states |
|---|---|---|
| Reporting.GetReportCount | CodeChallenge/Services/ReportingStructureService.cs:69-97 | the explicit-stack loop returns the number of slots strictly below the root (headcount less one); a null root gives 0 |
| Reporting.GetReportingStructureByEmployeeId | CodeChallenge/Services/ReportingStructureService.cs:28-43 | null exactly when the lookup returned null; otherwise the fetched root with NumberOfReports equal to its count |
| Reporting.ReportsUnderIsHeadcount | CodeChallenge/Models/ReportingStructure.cs:10-12 | the number of reports is the number of nodes of the subtree other than the root |
| Reporting.ReportsUnderAllIsHeadcount | CodeChallenge/Services/ReportingStructureService.cs:89-93 | each entry of a list counts once and then contributes its own subtree |
| Reporting.ReportsUnderAllPermutation | CodeChallenge/Services/ReportingStructureService.cs:85-93 | rearranging a list of slots does not change their total count |
| Reporting.ReorderedReportsKeepCount | CodeChallenge/Services/ReportingStructureService.cs:89-93 | reordering an employee's direct reports leaves the employee's count unchanged |
| Reporting.ReplacedReportKeepsCount | CodeChallenge/Services/ReportingStructureService.cs:89-93 | swapping a report for a subtree with the same count leaves the count unchanged, so reorderings at any depth keep it |
| Reporting.NullReportCountsOnce | CodeChallenge/Services/ReportingStructureService.cs:88-93 | a null entry at any position of a direct-report list is counted once and adds nothing below it: removing it lowers the count by exactly one |
| Reporting.DepthTreeHasNineReports | CodeChallenge.Tests/ReportingStructureServiceTests.cs:80-92 | three reports each with a chain of two below give 9 |
| Reporting.WidthTreeHasFifteenReports | CodeChallenge.Tests/ReportingStructureServiceTests.cs:95-106 | three reports each with four leaves give 15 |
| Data.FirstWithId | CodeChallenge/Data/EmployeeDataSeeder.cs:55 | finds the first loaded employee with the id, or reports that none has it |
| Data.ResolveMeaning | CodeChallenge/Data/EmployeeDataSeeder.cs:52-57 | a list fixes up exactly when every placeholder is non-null and matched; then its length and order are kept and entry i is the first loaded employee with placeholder i's id; otherwise the first bad placeholder decides the error |
| Data.ResolvedEntriesAreLoaded | CodeChallenge/Data/EmployeeDataSeeder.cs:55-56 | every entry of a fixed-up list is a member of the loaded list with the placeholder's id |
| Data.ResolveIdempotent | CodeChallenge/Data/EmployeeDataSeeder.cs:49-59 | fixing up a fixed-up list yields the same list |
| Data.ResolveReports | CodeChallenge/Data/EmployeeDataSeeder.cs:52-57 | the inner loop builds exactly the resolved list, or fails as the first bad placeholder does |
| Data.FixUpReferences | CodeChallenge/Data/EmployeeDataSeeder.cs:44-60 | succeeds exactly when every list resolves, and then each employee holds its resolved list (a null list stays null); on failure the employees before the failing one are rewritten and the rest untouched |
| Data.EmployeeContext.Find | CodeChallenge/Repositories/CompensationRepository.cs:32 | the lookup finds a stored employee with the id exactly when one exists |
| Data.EmployeeDataSeeder.Seed | CodeChallenge/Data/EmployeeDataSeeder.cs:21-41 | a non-empty store and the loaded list are left as they are; an empty store is seeded exactly when every loaded list fixes up, and then receives the fixed-up list; otherwise it stays empty |
| Repositories.SingleOrDefaultMeaning | CodeChallenge/Repositories/CompensationRepository.cs:53-56 | the single-record query finds nothing on no match, the record on one match, and throws on several |
| Repositories.AtMostOneRecord | CodeChallenge/Repositories/CompensationRepository.cs:37-41 | under the table invariant a non-empty id has at most one record |
| Repositories.InsertKeepsOnePerEmployee | CodeChallenge/Repositories/CompensationRepository.cs:37-44 | appending a record whose employee had none keeps the invariant |
| Repositories.CompensationRepository.GetCompensationByEmployeeId | CodeChallenge/Repositories/CompensationRepository.cs:49-57 | null for the empty id; otherwise null exactly when no record matches, the matching record, or an exception when several match |
| Repositories.CompensationRepository.AddAsync | CodeChallenge/Repositories/CompensationRepository.cs:23-47 | refuses null, a missing employee and an existing record, in that order, leaving the table unchanged; otherwise appends exactly this record; keeps the table invariant |
| Services.ServiceTableHasOnePerEmployee | CodeChallenge/Data/EmployeeContext.cs:17 | with no empty ids in the table, no two records share an employee |
| Services.CompensationService.Create | CodeChallenge/Services/CompensationService.cs:34-64 | checks null, then the empty id, then employee existence, then duplicates; succeeds exactly when all pass, returning the input with the existing employee's id after appending it once; an existing record for the employee is refused with AlreadyExists; refusals change nothing |
| Services.CompensationService.GetCompensationByEmployeeId | CodeChallenge/Services/CompensationService.cs:66-70 | null for the empty id; otherwise the employee's single record, or null when it has none |

## Left out

- GetReportCount: does not model the 32-bit wrap-around of the `int` counter. The count is an unbounded `nat`.
- The counter's input is a finite tree value. On a cyclic object graph the source's loop would not stop. A node shared by two parents is counted once per occurrence, as a tree with the node repeated would count it.
- `GetReportCount` does not load children: it counts only lists already in memory, so a null list counts 0. `GetByIdWithDirectReports` and its asynchronous recursive loader in `EmployeeRespository.cs` are not part of this model. The reporting-structure method takes the lookup result as a parameter.
- FixUpReferences: does not model a null entry in the loaded list or a null loaded list. Both throw in the source. A null entry throws a NullReferenceException when `employee.DirectReports` is read (EmployeeDataSeeder.cs:51) or when `First` projects its id (EmployeeDataSeeder.cs:46-47, 55). A null list throws an ArgumentNullException when the query at EmployeeDataSeeder.cs:46-47 is built, before the `ForEach` at EmployeeDataSeeder.cs:49 is reached. The loaded list is typed `seq<EmployeeEntity>`, a non-null sequence of non-null objects, so both error paths are excluded by type. The same holds for `Seed`'s `loaded` parameter. Only a null placeholder inside a direct-report list is modelled (`NullReport`).
- `LoadEmployees` (file and JSON reading) is not modelled. `Seed` takes the deserialised list as a parameter.
- The employee lookups by id (`FindAsync`, `GetById`) are modelled as a first-match search over the stored employees. The ORM's key handling is not modelled.
- The database's unique index is not modelled as an enforcement step. It appears only as the invariant the service keeps.
- The following are not modelled: logging, `async`/`await`, `SaveChangesAsync`, change tracking and transactions (`UnitOfWork`, the orchestrator service).
- `EmployeeService`, the controllers and their status-code mapping, the mapper profiles, hosting setup and the front-end are not part of this model.
- Salary and effective date are carried as opaque values, with no range validation and no arithmetic.
- The integration tests that expect 4 and 2 reports depend on the seed data file, which is not part of this model.
