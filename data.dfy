/**
 * The employee store and the seed loader: after the seed list is deserialised,
 * every direct-report list holds placeholders that carry only an id, and
 * FixUpReferences replaces each placeholder by the loaded employee with that id.
 */
module Data {
  import opened Wrappers
  import opened Models

  /** What the fix-up throws. */
  datatype SeedError =
    | NullReport                    // a null placeholder: reading its id throws
    | NoMatchingEmployee(id: Guid)  // `First` finds no loaded employee with the id

  /** The position of the first employee with the given id, if there is one. */
  function FirstWithId(employees: seq<EmployeeEntity>, id: Guid): (r: Option<nat>)
    ensures r.Some? ==> r.value < |employees| && employees[r.value].employeeId == id
    ensures r.Some? ==> forall k :: 0 <= k < r.value ==> employees[k].employeeId != id
    ensures r.None? ==> forall k :: 0 <= k < |employees| ==> employees[k].employeeId != id
    decreases |employees|
  {
    if employees == [] then None
    else if employees[0].employeeId == id then Some(0)
    else
      match FirstWithId(employees[1..], id)
      case None => None
      case Some(k) => Some(k + 1)
  }

  // ---------------------------------------------------------------------------
  // Specification of the fix-up
  // ---------------------------------------------------------------------------

  /** A placeholder can be replaced: it is not null and some loaded employee has its id. */
  predicate Resolvable(employees: seq<EmployeeEntity>, placeholder: EmployeeEntity?)
  {
    placeholder != null && FirstWithId(employees, placeholder.employeeId).Some?
  }

  /** The exception raised for a placeholder that cannot be replaced. */
  function ErrorFor(placeholder: EmployeeEntity?): SeedError
  {
    if placeholder == null then NullReport else NoMatchingEmployee(placeholder.employeeId)
  }

  /**
   * The replacement list for one direct-report list: placeholder by placeholder,
   * the first loaded employee with the same id; the first placeholder that cannot
   * be replaced decides the failure.
   */
  function Resolve(employees: seq<EmployeeEntity>, placeholders: seq<EmployeeEntity?>): Result<seq<EmployeeEntity>, SeedError>
    decreases |placeholders|
  {
    if placeholders == [] then Success([])
    else
      var n := |placeholders| - 1;
      match Resolve(employees, placeholders[..n])
      case Failure(e) => Failure(e)
      case Success(resolved) =>
        var p := placeholders[n];
        if p == null then Failure(NullReport)
        else
          match FirstWithId(employees, p.employeeId)
          case None => Failure(NoMatchingEmployee(p.employeeId))
          case Some(k) => Success(resolved + [employees[k]])
  }

  /** The new value of one employee's `directReports`: a null list stays null. */
  function FixedReports(employees: seq<EmployeeEntity>, reports: Option<seq<EmployeeEntity?>>): Result<Option<seq<EmployeeEntity?>>, SeedError>
  {
    match reports
    case None => Success(None)
    case Some(placeholders) =>
      match Resolve(employees, placeholders)
      case Failure(e) => Failure(e)
      case Success(resolved) => Success(Some(resolved))
  }

  /**
   * The fix-up succeeds exactly when every placeholder is resolvable; then the list
   * keeps its length and order, and position i holds the first loaded employee
   * with placeholder i's id. Otherwise the first unresolvable placeholder decides
   * the error.
   */
  lemma {:induction false} ResolveMeaning(employees: seq<EmployeeEntity>, placeholders: seq<EmployeeEntity?>)
    ensures Resolve(employees, placeholders).Success?
        <==> forall i :: 0 <= i < |placeholders| ==> Resolvable(employees, placeholders[i])
    ensures Resolve(employees, placeholders).Success? ==>
      var resolved := Resolve(employees, placeholders).value;
      && |resolved| == |placeholders|
      && forall i :: 0 <= i < |placeholders| ==>
           && placeholders[i] != null
           && resolved[i] == employees[FirstWithId(employees, placeholders[i].employeeId).value]
    ensures Resolve(employees, placeholders).Failure? ==>
      exists k :: 0 <= k < |placeholders|
        && (forall i :: 0 <= i < k ==> Resolvable(employees, placeholders[i]))
        && !Resolvable(employees, placeholders[k])
        && Resolve(employees, placeholders).error == ErrorFor(placeholders[k])
    decreases |placeholders|
  {
    if placeholders != [] {
      var n := |placeholders| - 1;
      var prefix := placeholders[..n];
      ResolveMeaning(employees, prefix);
      assert forall i :: 0 <= i < n ==> prefix[i] == placeholders[i];
      if Resolve(employees, prefix).Failure? {
        var k :| 0 <= k < n
          && (forall i :: 0 <= i < k ==> Resolvable(employees, prefix[i]))
          && !Resolvable(employees, prefix[k])
          && Resolve(employees, prefix).error == ErrorFor(prefix[k]);
        assert !Resolvable(employees, placeholders[k]);
      } else if !Resolvable(employees, placeholders[n]) {
        assert forall i :: 0 <= i < n ==> Resolvable(employees, placeholders[i]);
      }
    }
  }

  /** Every entry of a fixed-up list is a member of the loaded list with the placeholder's id. */
  lemma ResolvedEntriesAreLoaded(employees: seq<EmployeeEntity>, placeholders: seq<EmployeeEntity?>, i: nat)
    requires Resolve(employees, placeholders).Success? && i < |placeholders|
    ensures i < |Resolve(employees, placeholders).value|
    ensures Resolve(employees, placeholders).value[i] in employees
    ensures placeholders[i] != null
    ensures Resolve(employees, placeholders).value[i].employeeId == placeholders[i].employeeId
  {
    ResolveMeaning(employees, placeholders);
  }

  /**
   * Fixing up an already fixed-up list changes nothing: each entry is the first
   * loaded employee with its own id.
   */
  lemma {:induction false} ResolveIdempotent(employees: seq<EmployeeEntity>, placeholders: seq<EmployeeEntity?>)
    requires Resolve(employees, placeholders).Success?
    ensures Resolve(employees, Resolve(employees, placeholders).value) == Resolve(employees, placeholders)
    decreases |placeholders|
  {
    if placeholders != [] {
      var n := |placeholders| - 1;
      ResolveIdempotent(employees, placeholders[..n]);
      ResolveMeaning(employees, placeholders);
      var resolved := Resolve(employees, placeholders).value;
      var k := FirstWithId(employees, placeholders[n].employeeId).value;
      assert resolved == Resolve(employees, placeholders[..n]).value + [employees[k]];
      var entries: seq<EmployeeEntity?> := resolved;
      assert entries[..n] == Resolve(employees, placeholders[..n]).value;
      assert FirstWithId(employees, employees[k].employeeId) == Some(k);
    }
  }

  /** A failure on a prefix is the failure of the whole list. */
  lemma {:induction false} ResolveFailureExtends(employees: seq<EmployeeEntity>, placeholders: seq<EmployeeEntity?>, j: nat)
    requires j <= |placeholders| && Resolve(employees, placeholders[..j]).Failure?
    ensures Resolve(employees, placeholders) == Resolve(employees, placeholders[..j])
    decreases |placeholders| - j
  {
    if j < |placeholders| {
      var n := |placeholders| - 1;
      assert placeholders[..n][..j] == placeholders[..j];
      ResolveFailureExtends(employees, placeholders[..n], j);
      assert placeholders[..|placeholders|] == placeholders;
    } else {
      assert placeholders[..j] == placeholders;
    }
  }

  // ---------------------------------------------------------------------------
  // The fix-up
  // ---------------------------------------------------------------------------

  /** The inner loop: builds the replacement list for one employee's placeholders. */
  method ResolveReports(employees: seq<EmployeeEntity>, placeholders: seq<EmployeeEntity?>)
    returns (r: Result<seq<EmployeeEntity>, SeedError>)
    ensures r == Resolve(employees, placeholders)
  {
    var referenced: seq<EmployeeEntity> := [];
    for j := 0 to |placeholders|
      invariant Resolve(employees, placeholders[..j]) == Success(referenced)
    {
      assert placeholders[..j + 1][..j] == placeholders[..j];
      var report := placeholders[j];
      if report == null {
        ResolveFailureExtends(employees, placeholders, j + 1);
        return Failure(NullReport);
      }
      var k := FirstWithId(employees, report.employeeId);
      if k.None? {
        ResolveFailureExtends(employees, placeholders, j + 1);
        return Failure(NoMatchingEmployee(report.employeeId));
      }
      referenced := referenced + [employees[k.value]];
    }
    assert placeholders[..|placeholders|] == placeholders;
    r := Success(referenced);
  }

  /** The `directReports` field of each listed employee, as values. */
  ghost function ReportsOf(employees: seq<EmployeeEntity>): (r: seq<Option<seq<EmployeeEntity?>>>)
    reads employees
    ensures |r| == |employees|
    ensures forall j :: 0 <= j < |employees| ==> r[j] == employees[j].directReports
  {
    seq(|employees|, j requires 0 <= j < |employees| reads employees => employees[j].directReports)
  }

  /**
   * The state after the first `done` employees were processed, given the lists
   * `before` the fix-up and the lists `now`: none of the first `done` failed, every
   * object among them holds its fixed-up list, every other object its old list.
   */
  ghost predicate FixedUpTo(employees: seq<EmployeeEntity>, before: seq<Option<seq<EmployeeEntity?>>>,
                            now: seq<Option<seq<EmployeeEntity?>>>, done: nat)
  {
    && |before| == |now| == |employees|
    && done <= |employees|
    && (forall j :: 0 <= j < done ==> FixedReports(employees, before[j]).Success?)
    && (forall j :: 0 <= j < |employees| ==>
          if employees[j] in employees[..done]
          then FixedReports(employees, before[j]) == Success(now[j])
          else now[j] == before[j])
  }

  /**
   * Processing employee `i` successfully extends the fixed-up prefix by one.
   * Dafny proves this from the definition of `FixedUpTo`; it exists as a named
   * step so that the loop in `FixUpReferences` stays small.
   */
  lemma FixUpStep(employees: seq<EmployeeEntity>, before: seq<Option<seq<EmployeeEntity?>>>,
                  now: seq<Option<seq<EmployeeEntity?>>>, next: seq<Option<seq<EmployeeEntity?>>>, i: nat)
    requires FixedUpTo(employees, before, now, i) && i < |employees|
    requires forall j, k :: 0 <= j < |employees| && 0 <= k < |employees| && employees[j] == employees[k] ==> before[j] == before[k]
    requires FixedReports(employees, before[i]).Success?
    requires |next| == |employees|
    requires forall j :: 0 <= j < |employees| ==>
      next[j] == if employees[j] == employees[i] then FixedReports(employees, before[i]).value else now[j]
    ensures FixedUpTo(employees, before, next, i + 1)
  {
  }

  /**
   * FixUpReferences: for each loaded employee in order, a non-null direct-report
   * list is replaced by its resolved list. The first unresolvable placeholder
   * throws: the employees before it have been rewritten, the rest are untouched.
   * The loaded list itself and every object outside it are left unchanged.
   */
  method FixUpReferences(employees: seq<EmployeeEntity>) returns (r: Outcome<SeedError>)
    modifies employees
    ensures r.Pass? <==> forall i :: 0 <= i < |employees| ==>
      FixedReports(employees, old(employees[i].directReports)).Success?
    ensures r.Pass? ==> forall i :: 0 <= i < |employees| ==>
      FixedReports(employees, old(employees[i].directReports)) == Success(employees[i].directReports)
    ensures r.Fail? ==>
      exists k :: (
        && 0 <= k < |employees|
        && FixedUpTo(employees, old(ReportsOf(employees)), ReportsOf(employees), k)
        && FixedReports(employees, old(employees[k].directReports)) == Failure(r.error))
  {
    ghost var before := ReportsOf(employees);
    var i := 0;
    while i < |employees|
      invariant FixedUpTo(employees, before, ReportsOf(employees), i)
    {
      var employee := employees[i];
      ghost var now := ReportsOf(employees);
      // The same object earlier in the list was already fixed up, and fixing it
      // again changes nothing; either way it fixes up as its original list did.
      if employee in employees[..i] && now[i].Some? {
        ResolveIdempotent(employees, before[i].value);
      }
      assert FixedReports(employees, now[i]) == FixedReports(employees, before[i]);
      if employee.directReports.Some? {
        var resolved := ResolveReports(employees, employee.directReports.value);
        if resolved.Failure? {
          return Fail(resolved.error);
        }
        employee.directReports := Some(resolved.value);
      }
      FixUpStep(employees, before, now, ReportsOf(employees), i);
      i := i + 1;
    }
    assert employees[..i] == employees;
    r := Pass;
  }

  // ---------------------------------------------------------------------------
  // The store and the seeder
  // ---------------------------------------------------------------------------

  /** The employee table: the tracked employee entities. */
  class EmployeeContext {
    var employees: seq<EmployeeEntity>

    constructor (employees: seq<EmployeeEntity>)
      ensures this.employees == employees
    {
      this.employees := employees;
    }

    /** Lookup by key: the stored employee with that id, or null. */
    function Find(id: Guid): (r: Option<EmployeeEntity>)
      reads this
      ensures r.Some? <==> exists k :: 0 <= k < |employees| && employees[k].employeeId == id
      ensures r.Some? ==> r.value in employees && r.value.employeeId == id
    {
      match FirstWithId(employees, id)
      case None => None
      case Some(k) => Some(employees[k])
    }
  }

  class EmployeeDataSeeder {
    const employeeContext: EmployeeContext

    constructor (employeeContext: EmployeeContext)
      ensures this.employeeContext == employeeContext
    {
      this.employeeContext := employeeContext;
    }

    /**
     * Seed, given the deserialised seed list: an empty store receives the list
     * once its references are fixed up; a non-empty store, and the list, are left
     * as they are.
     */
    method Seed(loaded: seq<EmployeeEntity>) returns (r: Outcome<SeedError>)
      modifies employeeContext, loaded
      ensures old(employeeContext.employees) != [] ==>
        r == Pass && employeeContext.employees == old(employeeContext.employees) && unchanged(loaded)
      ensures old(employeeContext.employees) == [] ==>
        (r.Pass? <==> forall i :: 0 <= i < |loaded| ==> FixedReports(loaded, old(loaded[i].directReports)).Success?)
      ensures old(employeeContext.employees) == [] && r.Pass? ==>
        && employeeContext.employees == loaded
        && forall i :: 0 <= i < |loaded| ==>
             FixedReports(loaded, old(loaded[i].directReports)) == Success(loaded[i].directReports)
      ensures r.Fail? ==> employeeContext.employees == old(employeeContext.employees)
    {
      if employeeContext.employees == [] {
        r := FixUpReferences(loaded);
        if r.Pass? {
          employeeContext.employees := employeeContext.employees + loaded;
        }
      } else {
        r := Pass;
      }
    }
  }
}
