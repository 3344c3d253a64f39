/**
 * CompensationRepository: the compensation table, which may hold at most one
 * record per employee and only records of existing employees.
 */
module Repositories {
  import opened Wrappers
  import opened Models
  import opened Data

  /** The exceptions of the compensation operations. */
  datatype CompensationError =
    | ArgumentNull          // the service was given a null compensation
    | InvalidEmployeeId     // the service was given the empty id
    | EmployeeNotFound      // the service found no employee with the id
    | EmployeeIdRequired    // the repository was given a null compensation
    | EmployeeDoesNotExist  // the repository found no employee with the id
    | AlreadyExists         // the employee already has a compensation
    | MoreThanOneMatch      // a single-record query matched several records

  /** The number of records that belong to the employee. */
  function CountFor(compensations: seq<Compensation>, employeeId: Guid): nat
    decreases |compensations|
  {
    if compensations == [] then 0
    else
      var n := |compensations| - 1;
      CountFor(compensations[..n], employeeId) + if compensations[n].employeeId == employeeId then 1 else 0
  }

  /** No record belongs to the employee exactly when the count is zero. */
  lemma {:induction false} CountForZero(compensations: seq<Compensation>, employeeId: Guid)
    ensures CountFor(compensations, employeeId) == 0
        <==> forall i :: 0 <= i < |compensations| ==> compensations[i].employeeId != employeeId
    decreases |compensations|
  {
    if compensations != [] {
      var n := |compensations| - 1;
      CountForZero(compensations[..n], employeeId);
      assert forall i :: 0 <= i < n ==> compensations[..n][i] == compensations[i];
    }
  }

  /**
   * The query for the single record of an employee: none, the one record, or
   * an exception when several records match.
   */
  function SingleOrDefault(compensations: seq<Compensation>, employeeId: Guid): Result<Option<Compensation>, CompensationError>
    decreases |compensations|
  {
    if compensations == [] then Success(None)
    else
      var n := |compensations| - 1;
      match SingleOrDefault(compensations[..n], employeeId)
      case Failure(e) => Failure(e)
      case Success(found) =>
        if compensations[n].employeeId != employeeId then Success(found)
        else if found.Some? then Failure(MoreThanOneMatch)
        else Success(Some(compensations[n]))
  }

  /** The query fails exactly on several matches, finds nothing exactly on none, else finds the match. */
  lemma {:induction false} SingleOrDefaultMeaning(compensations: seq<Compensation>, employeeId: Guid)
    ensures SingleOrDefault(compensations, employeeId) == Success(None) <==> CountFor(compensations, employeeId) == 0
    ensures SingleOrDefault(compensations, employeeId).Failure? <==> CountFor(compensations, employeeId) >= 2
    ensures SingleOrDefault(compensations, employeeId).Failure? ==>
      SingleOrDefault(compensations, employeeId).error == MoreThanOneMatch
    ensures SingleOrDefault(compensations, employeeId).Success? && SingleOrDefault(compensations, employeeId).value.Some? ==>
      var c := SingleOrDefault(compensations, employeeId).value.value;
      c in compensations && c.employeeId == employeeId
    decreases |compensations|
  {
    if compensations != [] {
      var n := |compensations| - 1;
      SingleOrDefaultMeaning(compensations[..n], employeeId);
    }
  }

  /**
   * The invariant the duplicate check keeps: two records never share an employee,
   * except under the empty id, for which the check finds nothing.
   */
  predicate OnePerEmployee(compensations: seq<Compensation>)
  {
    forall i, j :: 0 <= i < j < |compensations| && compensations[i].employeeId == compensations[j].employeeId
      ==> compensations[i].employeeId == EmptyGuid
  }

  /** Under the invariant, a non-empty id has at most one record. */
  lemma {:induction false} AtMostOneRecord(compensations: seq<Compensation>, employeeId: Guid)
    requires OnePerEmployee(compensations) && employeeId != EmptyGuid
    ensures CountFor(compensations, employeeId) <= 1
    decreases |compensations|
  {
    if compensations != [] {
      var n := |compensations| - 1;
      AtMostOneRecord(compensations[..n], employeeId);
      if compensations[n].employeeId == employeeId {
        CountForZero(compensations[..n], employeeId);
      }
    }
  }

  /** Appending a record whose employee had none keeps the invariant. */
  lemma InsertKeepsOnePerEmployee(compensations: seq<Compensation>, c: Compensation)
    requires OnePerEmployee(compensations)
    requires c.employeeId != EmptyGuid ==> CountFor(compensations, c.employeeId) == 0
    ensures OnePerEmployee(compensations + [c])
  {
    CountForZero(compensations, c.employeeId);
  }

  class CompensationRepository {
    /** The employee table, which the existence check reads. */
    const employeeContext: EmployeeContext
    /** The compensation table, in insertion order. */
    var compensations: seq<Compensation>

    /** Each record belongs to a stored employee, and the duplicate check's invariant holds. */
    ghost predicate Valid()
      reads this, employeeContext
    {
      && OnePerEmployee(compensations)
      && forall i :: 0 <= i < |compensations| ==> employeeContext.Find(compensations[i].employeeId).Some?
    }

    constructor (employeeContext: EmployeeContext)
      ensures this.employeeContext == employeeContext && compensations == [] && Valid()
    {
      this.employeeContext := employeeContext;
      compensations := [];
    }

    /**
     * GetCompensationByEmployeeId: null for the empty id without querying;
     * otherwise the employee's single record, null when there is none, and an
     * exception when there are several.
     */
    method GetCompensationByEmployeeId(employeeId: Guid) returns (r: Result<Option<Compensation>, CompensationError>)
      ensures employeeId == EmptyGuid ==> r == Success(None)
      ensures employeeId != EmptyGuid ==>
        && (r.Failure? <==> CountFor(compensations, employeeId) >= 2)
        && (r == Success(None) <==> forall i :: 0 <= i < |compensations| ==> compensations[i].employeeId != employeeId)
      ensures r.Failure? ==> r.error == MoreThanOneMatch
      ensures r.Success? && r.value.Some? ==> r.value.value in compensations && r.value.value.employeeId == employeeId
      ensures employeeId != EmptyGuid && OnePerEmployee(compensations) ==> r.Success?
    {
      if employeeId == EmptyGuid {
        return Success(None);
      }
      SingleOrDefaultMeaning(compensations, employeeId);
      CountForZero(compensations, employeeId);
      if OnePerEmployee(compensations) {
        AtMostOneRecord(compensations, employeeId);
      }
      r := SingleOrDefault(compensations, employeeId);
    }

    /**
     * AddAsync: refuses a null compensation, one whose employee is not stored, and
     * one whose employee already has a record; otherwise appends it. A refusal
     * leaves the table as it was; the employee table is never changed.
     */
    method AddAsync(compensation: Option<Compensation>) returns (r: Result<Compensation, CompensationError>)
      modifies this
      ensures compensation.None? ==> r == Failure(EmployeeIdRequired)
      ensures compensation.Some? && employeeContext.Find(compensation.value.employeeId).None? ==>
        r == Failure(EmployeeDoesNotExist)
      ensures compensation.Some? && employeeContext.Find(compensation.value.employeeId).Some? ==>
        var c := compensation.value;
        if c.employeeId == EmptyGuid || CountFor(old(compensations), c.employeeId) == 0 then
          r == Success(c) && compensations == old(compensations) + [c]
        else if CountFor(old(compensations), c.employeeId) == 1 then r == Failure(AlreadyExists)
        else r == Failure(MoreThanOneMatch)
      ensures r.Failure? ==> compensations == old(compensations)
      ensures old(Valid()) ==> Valid()
    {
      if compensation.None? {
        return Failure(EmployeeIdRequired);
      }
      var c := compensation.value;
      if employeeContext.Find(c.employeeId).None? {
        return Failure(EmployeeDoesNotExist);
      }
      var existing := GetCompensationByEmployeeId(c.employeeId);
      CountForZero(compensations, c.employeeId);
      if existing.Failure? {
        return Failure(existing.error);
      }
      if existing.value.Some? {
        return Failure(AlreadyExists);
      }
      if OnePerEmployee(compensations) {
        InsertKeepsOnePerEmployee(compensations, c);
      }
      compensations := compensations + [c];
      r := Success(c);
    }
  }
}
