/**
 * ReportingStructureService: counting the direct and indirect reports of an
 * employee with an explicit stack, and wrapping the count into a
 * ReportingStructure.
 */
module Reporting {
  import opened Wrappers
  import opened Models

  // ---------------------------------------------------------------------------
  // Specification: what the counter must return
  // ---------------------------------------------------------------------------

  /**
   * The number of direct-report entries reached from `slot`: every entry of every
   * reached list counts once, a null entry included; a null slot or a null list
   * contributes nothing.
   */
  function ReportsUnder(slot: Option<Employee>): nat
    decreases slot
  {
    match slot
    case None => 0
    case Some(e) =>
      match e.directReports
      case NoList => 0
      case ReportList(entries) => |entries| + ReportsUnderAll(entries)
  }

  /** `ReportsUnder` summed over a sequence of slots. */
  function ReportsUnderAll(slots: seq<Option<Employee>>): nat
    decreases slots
  {
    if slots == [] then 0
    else ReportsUnderAll(slots[..|slots| - 1]) + ReportsUnder(slots[|slots| - 1])
  }

  /**
   * Reference definition: the number of slots in the subtree at `slot`, the slot
   * itself included (a null entry occupies one slot and has nothing below it).
   */
  function Headcount(slot: Option<Employee>): nat
    decreases slot
  {
    match slot
    case None => 1
    case Some(e) =>
      match e.directReports
      case NoList => 1
      case ReportList(entries) => 1 + HeadcountAll(entries)
  }

  /** `Headcount` summed over a sequence of slots. */
  function HeadcountAll(slots: seq<Option<Employee>>): nat
    decreases slots
  {
    if slots == [] then 0
    else HeadcountAll(slots[..|slots| - 1]) + Headcount(slots[|slots| - 1])
  }

  /** Every slot below the root is one report: the count is the headcount less the root. */
  lemma {:induction false} ReportsUnderIsHeadcount(slot: Option<Employee>)
    ensures ReportsUnder(slot) + 1 == Headcount(slot)
    decreases slot
  {
    match slot
    case None =>
    case Some(e) =>
      match e.directReports
      case NoList =>
      case ReportList(entries) => ReportsUnderAllIsHeadcount(entries);
  }

  /** Over a sequence of slots: each slot adds itself to the headcount. */
  lemma {:induction false} ReportsUnderAllIsHeadcount(slots: seq<Option<Employee>>)
    ensures ReportsUnderAll(slots) + |slots| == HeadcountAll(slots)
    decreases slots
  {
    if slots != [] {
      ReportsUnderAllIsHeadcount(slots[..|slots| - 1]);
      ReportsUnderIsHeadcount(slots[|slots| - 1]);
    }
  }

  // ---------------------------------------------------------------------------
  // The counter
  // ---------------------------------------------------------------------------

  /**
   * GetReportCount: pops an employee, and for each entry of its direct-report list
   * adds one and pushes the entry, until the stack is empty. The result is the
   * number of slots strictly below the root: the root itself is never counted.
   */
  method GetReportCount(employee: Option<Employee>) returns (count: nat)
    ensures count == ReportsUnder(employee)
    ensures count == Headcount(employee) - 1
    ensures employee.None? ==> count == 0
  {
    ReportsUnderIsHeadcount(employee);
    if employee.None? {
      return 0;
    }
    count := 0;
    var stack: seq<Option<Employee>> := [employee];
    while |stack| > 0
      invariant count + ReportsUnderAll(stack) == ReportsUnder(employee)
      decreases ReportsUnderAll(stack) + |stack|
    {
      var current := stack[|stack| - 1];
      stack := stack[..|stack| - 1];
      if current.None? || current.value.directReports.NoList? {
        continue;
      }
      var reports := current.value.directReports.entries;
      ghost var rest := stack;
      ghost var before := count;
      for i := 0 to |reports|
        invariant stack == rest + reports[..i]
        invariant count == before + i
        invariant ReportsUnderAll(stack) == ReportsUnderAll(rest) + ReportsUnderAll(reports[..i])
      {
        count := count + 1;
        stack := stack + [reports[i]];
        assert stack[..|stack| - 1] == rest + reports[..i];
        assert reports[..i + 1][..i] == reports[..i];
      }
      assert reports[..|reports|] == reports;
    }
  }

  /**
   * GetReportingStructureByEmployeeId, given what the employee lookup returned:
   * null when the root is absent, otherwise the root together with its count.
   */
  method GetReportingStructureByEmployeeId(fetched: Option<Employee>) returns (r: Option<ReportingStructure>)
    ensures r.None? <==> fetched.None?
    ensures r.Some? ==> r.value.employee == fetched.value
    ensures r.Some? ==> r.value.numberOfReports == Some(Headcount(fetched) - 1)
  {
    if fetched.None? {
      return None;
    }
    var count := GetReportCount(fetched);
    r := Some(ReportingStructure(fetched.value, Some(count)));
  }

  // ---------------------------------------------------------------------------
  // Properties of the count
  // ---------------------------------------------------------------------------

  /** The count over a concatenation is the sum of the counts. */
  lemma {:induction false} ReportsUnderAllAppend(a: seq<Option<Employee>>, b: seq<Option<Employee>>)
    ensures ReportsUnderAll(a + b) == ReportsUnderAll(a) + ReportsUnderAll(b)
    decreases |b|
  {
    if b == [] {
      assert a + b == a;
    } else {
      var n := |b| - 1;
      assert (a + b)[..|a + b| - 1] == a + b[..n];
      ReportsUnderAllAppend(a, b[..n]);
    }
  }

  /**
   * Appending one slot adds that slot's count. Dafny proves this from the
   * definition; it exists as a named step for the fixture proofs below.
   */
  lemma ReportsUnderAllSnoc(a: seq<Option<Employee>>, x: Option<Employee>)
    ensures ReportsUnderAll(a + [x]) == ReportsUnderAll(a) + ReportsUnder(x)
  {
  }

  /** Sibling order does not matter: any rearrangement of the slots has the same count. */
  lemma {:induction false} ReportsUnderAllPermutation(a: seq<Option<Employee>>, b: seq<Option<Employee>>)
    requires multiset(a) == multiset(b)
    ensures ReportsUnderAll(a) == ReportsUnderAll(b)
    decreases |a|
  {
    if a != [] {
      var n := |a| - 1;
      var x := a[n];
      assert x in multiset(b);
      var k :| 0 <= k < |b| && b[k] == x;
      var b' := b[..k] + b[k + 1..];
      assert b == b[..k] + [x] + b[k + 1..];
      assert a == a[..n] + [x];
      assert multiset(b) == multiset(b[..k]) + multiset([x]) + multiset(b[k + 1..]);
      assert multiset(b') == multiset(b[..k]) + multiset(b[k + 1..]);
      assert multiset(a) == multiset(a[..n]) + multiset([x]);
      assert multiset(a[..n]) == multiset(a) - multiset([x]);
      assert multiset(b') == multiset(b) - multiset([x]);
      ReportsUnderAllPermutation(a[..n], b');
      ReportsUnderAllAppend(b[..k] + [x], b[k + 1..]);
      ReportsUnderAllAppend(b[..k], [x]);
      ReportsUnderAllAppend(b[..k], b[k + 1..]);
      assert ReportsUnderAll([x]) == ReportsUnder(x) by {
        assert [x][..0] == [];
      }
    }
  }

  /** Reordering an employee's direct-report list leaves the employee's count unchanged. */
  lemma ReorderedReportsKeepCount(e: Employee, reordered: seq<Option<Employee>>)
    requires e.directReports.ReportList?
    requires multiset(reordered) == multiset(e.directReports.entries)
    ensures ReportsUnder(Some(e.(directReports := ReportList(reordered)))) == ReportsUnder(Some(e))
  {
    ReportsUnderAllPermutation(reordered, e.directReports.entries);
    assert |reordered| == |multiset(reordered)| == |e.directReports.entries|;
  }

  /**
   * Replacing one direct report by a subtree with the same count leaves the count
   * unchanged; with ReorderedReportsKeepCount this covers reorderings at any depth.
   */
  lemma ReplacedReportKeepsCount(e: Employee, i: nat, replacement: Option<Employee>)
    requires e.directReports.ReportList? && i < |e.directReports.entries|
    requires ReportsUnder(replacement) == ReportsUnder(e.directReports.entries[i])
    ensures ReportsUnder(Some(e.(directReports := ReportList(e.directReports.entries[i := replacement]))))
         == ReportsUnder(Some(e))
  {
    var entries := e.directReports.entries;
    var replaced := entries[i := replacement];
    assert entries == entries[..i] + [entries[i]] + entries[i + 1..];
    assert replaced == entries[..i] + [replacement] + entries[i + 1..];
    ReportsUnderAllAppend(entries[..i] + [entries[i]], entries[i + 1..]);
    ReportsUnderAllAppend(entries[..i], [entries[i]]);
    ReportsUnderAllAppend(entries[..i] + [replacement], entries[i + 1..]);
    ReportsUnderAllAppend(entries[..i], [replacement]);
    assert [entries[i]][..0] == [] && [replacement][..0] == [];
  }

  /**
   * A null entry anywhere in a direct-report list is counted once and adds
   * nothing below it: dropping it lowers the count by exactly one.
   */
  lemma NullReportCountsOnce(e: Employee, i: nat)
    requires e.directReports.ReportList? && i < |e.directReports.entries|
    requires e.directReports.entries[i] == None
    ensures var s := e.directReports.entries;
      ReportsUnder(Some(e)) == ReportsUnder(Some(e.(directReports := ReportList(s[..i] + s[i + 1..])))) + 1
  {
    var s := e.directReports.entries;
    var rest := s[..i] + s[i + 1..];
    assert s == s[..i] + [None] + s[i + 1..];
    assert multiset(s) == multiset(rest + [None]);
    ReportsUnderAllPermutation(s, rest + [None]);
    ReportsUnderAllSnoc(rest, None);
  }

  // ---------------------------------------------------------------------------
  // The hierarchies exercised by the service's unit tests
  // ---------------------------------------------------------------------------

  /** An employee with the given id and direct-report list and no other data. */
  function Person(id: Guid, reports: DirectReports): Employee
  {
    Employee(id, None, None, None, None, None, reports)
  }

  /** A direct report with one report of its own, who has one report in turn. */
  function Chain(k: Guid): Option<Employee>
    requires k <= 100
  {
    Some(Person(k, ReportList([Some(Person(k + 1, ReportList([Some(Person(k + 2, NoList))])))])))
  }

  /** Three direct reports, each with a chain of two below it. */
  function DepthTree(): Employee
  {
    Person(1, ReportList([Chain(10), Chain(20), Chain(30)]))
  }

  /** Three direct reports, each with four leaves below it. */
  function WidthTree(): Employee
  {
    var leaf := Some(Person(2, NoList));
    var manager := Some(Person(3, ReportList([leaf, leaf, leaf, leaf])));
    Person(1, ReportList([manager, manager, manager]))
  }

  lemma DepthTreeHasNineReports()
    ensures ReportsUnder(Some(DepthTree())) == 9
  {
    forall k: Guid | k <= 100
      ensures ReportsUnder(Chain(k)) == 2
    {
      var leaf := Some(Person(k + 2, NoList));
      var middle := Some(Person(k + 1, ReportList([leaf])));
      ReportsUnderAllSnoc([], leaf);
      ReportsUnderAllSnoc([], middle);
      assert [] + [leaf] == [leaf] && [] + [middle] == [middle];
    }
    var entries := DepthTree().directReports.entries;
    ReportsUnderAllSnoc([], entries[0]);
    ReportsUnderAllSnoc([entries[0]], entries[1]);
    ReportsUnderAllSnoc([entries[0], entries[1]], entries[2]);
    assert [] + [entries[0]] == [entries[0]];
    assert [entries[0]] + [entries[1]] == [entries[0], entries[1]];
    assert [entries[0], entries[1]] + [entries[2]] == entries;
  }

  lemma WidthTreeHasFifteenReports()
    ensures ReportsUnder(Some(WidthTree())) == 15
  {
    var leaf := Some(Person(2, NoList));
    var manager := Some(Person(3, ReportList([leaf, leaf, leaf, leaf])));
    ReportsUnderAllSnoc([], leaf);
    ReportsUnderAllSnoc([leaf], leaf);
    ReportsUnderAllSnoc([leaf, leaf], leaf);
    ReportsUnderAllSnoc([leaf, leaf, leaf], leaf);
    assert [] + [leaf] == [leaf];
    assert [leaf] + [leaf] == [leaf, leaf];
    assert [leaf, leaf] + [leaf] == [leaf, leaf, leaf];
    assert [leaf, leaf, leaf] + [leaf] == [leaf, leaf, leaf, leaf];
    ReportsUnderAllSnoc([], manager);
    ReportsUnderAllSnoc([manager], manager);
    ReportsUnderAllSnoc([manager, manager], manager);
    assert [] + [manager] == [manager];
    assert [manager] + [manager] == [manager, manager];
    assert [manager, manager] + [manager] == [manager, manager, manager];
  }
}
