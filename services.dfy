/**
 * CompensationService: validates a new compensation before handing it to the
 * repository, and guards the lookup by employee id.
 */
module Services {
  import opened Wrappers
  import opened Models
  import opened Data
  import opened Repositories

  /** Full uniqueness: no two records share an employee. */
  predicate NoSharedEmployee(compensations: seq<Compensation>)
  {
    forall i, j :: 0 <= i < j < |compensations| ==> compensations[i].employeeId != compensations[j].employeeId
  }

  /**
   * The table the service keeps: no record has the empty id, so the repository's
   * invariant becomes full uniqueness, and every employee has at most one record.
   */
  lemma ServiceTableHasOnePerEmployee(compensations: seq<Compensation>, employeeId: Guid)
    requires OnePerEmployee(compensations)
    requires forall i :: 0 <= i < |compensations| ==> compensations[i].employeeId != EmptyGuid
    ensures NoSharedEmployee(compensations)
    ensures CountFor(compensations, employeeId) <= 1
  {
    if employeeId == EmptyGuid {
      CountForZero(compensations, employeeId);
    } else {
      AtMostOneRecord(compensations, employeeId);
    }
  }

  class CompensationService {
    const compensationRepository: CompensationRepository
    /** The employee lookup, which reads the table the repository checks against. */
    const employeeRepository: EmployeeContext

    ghost predicate Valid()
      reads this, compensationRepository, compensationRepository.employeeContext
    {
      && compensationRepository.employeeContext == employeeRepository
      && compensationRepository.Valid()
      && forall i :: 0 <= i < |compensationRepository.compensations| ==>
           compensationRepository.compensations[i].employeeId != EmptyGuid
    }

    constructor (compensationRepository: CompensationRepository)
      requires compensationRepository.Valid()
      requires forall i :: 0 <= i < |compensationRepository.compensations| ==>
                 compensationRepository.compensations[i].employeeId != EmptyGuid
      ensures this.compensationRepository == compensationRepository
      ensures employeeRepository == compensationRepository.employeeContext
      ensures Valid()
    {
      this.compensationRepository := compensationRepository;
      employeeRepository := compensationRepository.employeeContext;
    }

    /**
     * Create: checks, in this order, that the compensation is not null, that its id
     * is not empty and that the employee exists, then hands it to the repository
     * once. Every refusal leaves the table as it was.
     */
    method Create(compensation: Option<Compensation>) returns (r: Result<Compensation, CompensationError>)
      requires Valid()
      modifies compensationRepository
      ensures Valid()
      ensures compensation.None? ==> r == Failure(ArgumentNull)
      ensures compensation.Some? && compensation.value.employeeId == EmptyGuid ==> r == Failure(InvalidEmployeeId)
      ensures compensation.Some? && compensation.value.employeeId != EmptyGuid ==>
        (employeeRepository.Find(compensation.value.employeeId).None? ==> r == Failure(EmployeeNotFound))
      ensures r.Success? <==>
        && compensation.Some?
        && compensation.value.employeeId != EmptyGuid
        && employeeRepository.Find(compensation.value.employeeId).Some?
        && CountFor(old(compensationRepository.compensations), compensation.value.employeeId) == 0
      ensures r.Success? ==>
        && r.value == compensation.value
        && r.value.employeeId == employeeRepository.Find(compensation.value.employeeId).value.employeeId
        && compensationRepository.compensations == old(compensationRepository.compensations) + [r.value]
      ensures
        && compensation.Some?
        && compensation.value.employeeId != EmptyGuid
        && employeeRepository.Find(compensation.value.employeeId).Some?
        && CountFor(old(compensationRepository.compensations), compensation.value.employeeId) != 0
        ==> r == Failure(AlreadyExists)
      ensures r.Failure? ==> compensationRepository.compensations == old(compensationRepository.compensations)
    {
      if compensation.None? {
        return Failure(ArgumentNull);
      }
      if compensation.value.employeeId == EmptyGuid {
        return Failure(InvalidEmployeeId);
      }
      var existingEmployee := employeeRepository.Find(compensation.value.employeeId);
      if existingEmployee.None? {
        return Failure(EmployeeNotFound);
      }
      var c := compensation.value.(employeeId := existingEmployee.value.employeeId);
      ServiceTableHasOnePerEmployee(compensationRepository.compensations, c.employeeId);
      r := compensationRepository.AddAsync(Some(c));
    }

    /** GetCompensationByEmployeeId: null for the empty id without querying, else the repository's answer. */
    method GetCompensationByEmployeeId(employeeId: Guid) returns (r: Result<Option<Compensation>, CompensationError>)
      requires Valid()
      ensures employeeId == EmptyGuid ==> r == Success(None)
      ensures r.Success?
      ensures r.value.None? <==>
        forall i :: 0 <= i < |compensationRepository.compensations| ==>
          compensationRepository.compensations[i].employeeId != employeeId
      ensures r.value.Some? ==>
        && r.value.value in compensationRepository.compensations
        && r.value.value.employeeId == employeeId
    {
      if employeeId == EmptyGuid {
        return Success(None);
      }
      r := compensationRepository.GetCompensationByEmployeeId(employeeId);
    }
  }
}
