/**
 The summary the script's entry point prints for one ward
 (src/police_allocation.py:112-146): coverage of the ideal, the officers
 still missing for full coverage, and how much of the pool the schedule
 leaves unused.

 The ward is a parameter here; the script fixes it to one ward code.
 */
module Outcome {
  import opened Sums
  import opened Cells
  import opened Formulation
  import opened Extraction

  datatype Option<T> = None | Some(value: T)

  /** The weekly hours one officer can give: two hours on each of four days. */
  const HoursPerOfficer: nat := MaxDailyHours * MaxWorkingDays

  /** A cell's requirement over the whole week: `t_g` for each of the 7 days and 2 blocks. */
  function WeekNeed(c: Cell): int {
    NumDays * |Blocks| * c.required
  }

  /**
   The hours needed for perfect coverage, summed over every cell of the ward
   (also those without residential area, whose `t_g` is zero).
   */
  function TotalNeeded(table: seq<Cell>, ward: string): (n: int)
    ensures n >= 0
  {
    var cells := WardCells(table, ward);
    SumNonNegative(cells, WeekNeed);
    Sum(cells, WeekNeed)
  }

  /** `max(0, needed - actual)`. */
  function MissingHours(needed: int, actual: int): (m: nat)
    ensures m >= needed - actual
    ensures m == 0 || m == needed - actual
  {
    if needed >= actual then needed - actual else 0
  }

  /** `ceil(a / b)` for a positive divisor, in integers. */
  function CeilDiv(a: int, b: int): (q: int)
    requires b > 0
    ensures (q - 1) * b < a <= q * b
  {
    -((-a) / b)
  }

  /** `floor(a / b)` for a positive divisor, in integers. */
  function FloorDiv(a: int, b: int): (q: int)
    requires b > 0
    ensures q * b <= a < (q + 1) * b
  {
    a / b
  }

  /** The extra officers needed to cover the missing hours: the fewest whose weekly hours reach them. */
  function ExtraOfficers(missing: nat): (n: nat)
    ensures n * HoursPerOfficer >= missing
    ensures n == 0 || (n - 1) * HoursPerOfficer < missing
    ensures n == 0 <==> missing == 0
  {
    CeilDiv(missing, HoursPerOfficer)
  }

  /**
   The whole officers' worth of weekly hours left over: the most whose weekly
   hours fit. The script floors whatever it gets, so a negative saving gives a
   negative count.
   */
  function SavedOfficers(saved: int): (n: int)
    ensures n * HoursPerOfficer <= saved < (n + 1) * HoursPerOfficer
    ensures n >= 0 <==> saved >= 0
  {
    FloorDiv(saved, HoursPerOfficer)
  }

  /** The figures the script prints once the ward has at least one assignment row. */
  datatype Summary = Summary(actual: int, needed: int, coverage: real, missing: nat, extraOfficers: nat,
                             available: int, utilisation: real, savedHours: int, savedOfficers: int)

  /** The rows `solve_ward` returns for the ward, given the solver's answer `s`. */
  function SolveWard(table: seq<Cell>, ward: string, s: Schedule): (rows: seq<Assignment>)
    ensures forall r :: r in rows <==> Emitted(BuildWard(table, ward), s, r)
    ensures AssignedHours(rows) == TotalHours(BuildWard(table, ward), s)
    ensures rows == [] <==> TotalHours(BuildWard(table, ward), s) == 0
  {
    var p := BuildWard(table, ward);
    forall r {
      ExtractMember(p, s, r);
    }
    ExtractHours(p, s);
    ExtractEmptyIff(p, s);
    Extract(p, s)
  }

  /** `a / b` in true division: the real whose product with `b` is `a`. */
  function Ratio(a: int, b: int): (q: real)
    requires b != 0
    ensures q * (b as real) == a as real
  {
    a as real / b as real
  }

  /** A ratio of a positive count to one at least as large lies in (0, 1], and is 1 only for equal counts. */
  lemma RatioUnit(a: int, b: int)
    requires 0 < a <= b
    ensures 0.0 < Ratio(a, b) <= 1.0
    ensures Ratio(a, b) == 1.0 <==> a == b
  {
  }

  /**
   The figures computed from the assigned and the needed hours: coverage of
   the ideal, the shortfall in hours and in officers, and the use of the pool
   of `NumOfficers` officers. The script divides by the needed hours, so they
   must not be zero.
   */
  function Summarise(actual: int, needed: int): (m: Summary)
    requires needed != 0
    ensures m.actual == actual && m.needed == needed
    ensures m.coverage * (needed as real) == actual as real
    ensures m.missing >= needed - actual && (m.missing == 0 || m.missing == needed - actual)
    ensures m.extraOfficers * HoursPerOfficer >= m.missing
    ensures m.extraOfficers == 0 || (m.extraOfficers - 1) * HoursPerOfficer < m.missing
    ensures m.available == NumOfficers * HoursPerOfficer
    ensures m.utilisation * (m.available as real) == actual as real
    ensures m.savedHours + actual == m.available
    ensures m.savedOfficers * HoursPerOfficer <= m.savedHours < (m.savedOfficers + 1) * HoursPerOfficer
  {
    var missing := MissingHours(needed, actual);
    var available := NumOfficers * HoursPerOfficer;
    var saved := available - actual;
    Summary(actual, needed, Ratio(actual, needed), missing, ExtraOfficers(missing),
            available, Ratio(actual, available), saved, SavedOfficers(saved))
  }

  /**
   The printed summary for the ward, or `None` when the rows are empty (the
   script then prints only that there are no assignments). A row names a cell
   of `G`, whose `t_g` is at least 1, so the needed hours it divides by are
   positive whatever the solver returns.
   */
  function Report(table: seq<Cell>, ward: string, s: Schedule): (r: Option<Summary>)
    requires WellFormedTable(table)
    ensures r.None? <==> SolveWard(table, ward, s) == []
    ensures r.Some? ==> r.value.actual == AssignedHours(SolveWard(table, ward, s))
    ensures r.Some? ==> r.value.needed == TotalNeeded(table, ward)
  {
    var rows := SolveWard(table, ward, s);
    if rows == [] then None
    else
      assert TotalNeeded(table, ward) >= NumDays * |Blocks| by {
        assert rows[0] in rows;
        var c :| c in table && Eligible(c, ward) && c.id == rows[0].cell;
        NeedFromCell(table, ward, c);
      }
      Some(Summarise(AssignedHours(rows), TotalNeeded(table, ward)))
  }

  // ------------------------------------------------------------------ lemmas

  /** A ward with an eligible cell needs at least one officer-hour in each slot of the week. */
  lemma NeedFromCell(table: seq<Cell>, ward: string, c: Cell)
    requires WellFormedTable(table)
    requires c in table && Eligible(c, ward)
    ensures TotalNeeded(table, ward) >= NumDays * |Blocks|
  {
    var p := BuildWard(table, ward);
    BuildWardRequirements(table, ward);
    TotalNeededMatchesProblem(table, ward);
    assert c.id in p.cells;
    SumBoundsTerm(p.cells, g => NumDays * |Blocks| * Requirement(p, g), c.id);
  }

  /** Summing a function of the cell ids equals summing it over the cells. */
  lemma {:induction false} SumOverIds(cells: seq<Cell>, f: CellId -> int, g: Cell -> int)
    requires forall c :: g(c) == f(c.id)
    ensures Sum(Ids(cells), f) == Sum(cells, g)
    decreases |cells|
  {
    if |cells| != 0 {
      assert Ids(cells)[1..] == Ids(cells[1..]);
      SumOverIds(cells[1..], f, g);
    }
  }

  /**
   Over a well-formed table, the ward cells outside `G` have no residential
   area and so need no hours: summing over the ward's cells or over the
   selected ones gives the same need.
   */
  lemma {:induction false} WardNeedIsSelectedNeed(table: seq<Cell>, ward: string)
    requires forall c | c in table :: WellFormedCell(c)
    ensures Sum(WardCells(table, ward), WeekNeed) == Sum(SelectCells(table, ward), WeekNeed)
    decreases |table|
  {
    if |table| != 0 {
      var head, tail := table[0], table[1..];
      assert forall c | c in tail :: c in table;
      WardNeedIsSelectedNeed(tail, ward);
      var wardHead := if InWard(head, ward) then [head] else [];
      var selectedHead := if Eligible(head, ward) then [head] else [];
      SumAppend(wardHead, WardCells(tail, ward), WeekNeed);
      SumAppend(selectedHead, SelectCells(tail, ward), WeekNeed);
      if InWard(head, ward) && !Eligible(head, ward) {
        assert head in table;
        assert head.residentialArea == 0.0;
        RequiredHoursPositive(head.residentialArea);
        assert WeekNeed(head) == 0;
      }
    }
  }

  /**
   The script's `total_needed`, taken over all of the ward's cells, is exactly
   the week's requirement of the problem built from the selected cells.
   */
  lemma TotalNeededMatchesProblem(table: seq<Cell>, ward: string)
    requires WellFormedTable(table)
    ensures TotalNeeded(table, ward) == RequiredWeekHours(BuildWard(table, ward))
  {
    var p := BuildWard(table, ward);
    var selected := SelectCells(table, ward);
    BuildWardRequirements(table, ward);
    SumOverIds(selected, g => NumDays * |Blocks| * Requirement(p, g), (c: Cell) => NumDays * |Blocks| * Requirement(p, c.id));
    forall c | c in selected
      ensures NumDays * |Blocks| * Requirement(p, c.id) == WeekNeed(c)
    {
    }
    SumCongruence(selected, (c: Cell) => NumDays * |Blocks| * Requirement(p, c.id), WeekNeed);
    WardNeedIsSelectedNeed(table, ward);
  }

  /** A ward without eligible cells produces no rows, whatever the solver returns, hence no summary. */
  lemma ReportEmptyWard(table: seq<Cell>, ward: string, s: Schedule)
    requires WellFormedTable(table)
    requires forall c | c in table :: !Eligible(c, ward)
    ensures SolveWard(table, ward, s) == []
    ensures Report(table, ward, s) == None
  {
    SelectCellsNone(table, ward);
    ExtractEmptyWard(BuildWard(table, ward), s);
  }

  /**
   Bounds on the figures when some but not more than the needed hours, and
   not more than the pool's hours, are assigned: coverage and utilisation lie
   in (0, 1], no officer is missing exactly when the need is met, and the
   saved officers number fewer than the pool.
   */
  lemma SummaryBounds(actual: int, needed: int)
    requires 0 < actual <= needed
    requires actual <= NumOfficers * HoursPerOfficer
    ensures var m := Summarise(actual, needed);
            && 0.0 < m.coverage <= 1.0
            && (m.coverage == 1.0 <==> actual == needed)
            && m.missing == needed - actual
            && (m.extraOfficers == 0 <==> actual == needed)
            && 0.0 < m.utilisation <= 1.0
            && 0 <= m.savedHours < m.available
            && 0 <= m.savedOfficers < NumOfficers
  {
    RatioUnit(actual, needed);
    RatioUnit(actual, NumOfficers * HoursPerOfficer);
  }

  /**
   A summary exists exactly when the schedule assigns some hours; it is then
   the summary of the schedule's total against the ward's weekly need, which
   the total never exceeds, nor the pool's 800 hours.
   */
  lemma ReportSummarisesSchedule(table: seq<Cell>, ward: string, s: Schedule)
    requires WellFormedTable(table)
    requires Feasible(BuildWard(table, ward), s)
    ensures Report(table, ward, s).Some? <==> TotalHours(BuildWard(table, ward), s) > 0
    ensures Report(table, ward, s).Some? ==>
              && 0 < TotalHours(BuildWard(table, ward), s) <= RequiredWeekHours(BuildWard(table, ward))
              && TotalHours(BuildWard(table, ward), s) <= NumOfficers * HoursPerOfficer
              && Report(table, ward, s).value ==
                 Summarise(TotalHours(BuildWard(table, ward), s), RequiredWeekHours(BuildWard(table, ward)))
  {
    var p := BuildWard(table, ward);
    ExtractEmptyIff(p, s);
    HoursNonNegative(p, s);
    AssignedWithinNeed(p, s);
    AssignedWithinPool(p, s);
    TotalNeededMatchesProblem(table, ward);
  }

  /**
   Coverage and shortfall: the coverage lies in (0, 1], the missing hours are
   the need minus the assignment, and both full coverage and needing no extra
   officer happen exactly when every cell, day and block is saturated.
   */
  lemma ReportCoverage(table: seq<Cell>, ward: string, s: Schedule)
    requires WellFormedTable(table)
    requires Feasible(BuildWard(table, ward), s)
    ensures Report(table, ward, s).Some? ==>
              var m := Report(table, ward, s).value;
              && 0 < m.actual <= m.needed
              && 0.0 < m.coverage <= 1.0
              && m.missing == m.needed - m.actual
              && m.extraOfficers * HoursPerOfficer >= m.missing
              && (m.extraOfficers == 0 || (m.extraOfficers - 1) * HoursPerOfficer < m.missing)
              && (m.coverage == 1.0 <==> Saturated(BuildWard(table, ward), s))
              && (m.extraOfficers == 0 <==> Saturated(BuildWard(table, ward), s))
  {
    var p := BuildWard(table, ward);
    ReportSummarisesSchedule(table, ward, s);
    AssignedWithinNeed(p, s);
    if Report(table, ward, s).Some? {
      SummaryBounds(TotalHours(p, s), RequiredWeekHours(p));
    }
  }

  /**
   Utilisation: the pool offers 800 hours; the schedule uses a positive share
   of at most all of it, the saved hours are what is left, and the saved
   officers are the whole officers' worth of it, between 0 and 99.
   */
  lemma ReportUtilisation(table: seq<Cell>, ward: string, s: Schedule)
    requires WellFormedTable(table)
    requires Feasible(BuildWard(table, ward), s)
    ensures Report(table, ward, s).Some? ==>
              var m := Report(table, ward, s).value;
              && m.available == 800
              && 0.0 < m.utilisation <= 1.0
              && m.savedHours == m.available - m.actual
              && 0 <= m.savedHours < m.available
              && m.savedOfficers * HoursPerOfficer <= m.savedHours < (m.savedOfficers + 1) * HoursPerOfficer
              && 0 <= m.savedOfficers < NumOfficers
  {
    var p := BuildWard(table, ward);
    ReportSummarisesSchedule(table, ward, s);
    if Report(table, ward, s).Some? {
      SummaryBounds(TotalHours(p, s), RequiredWeekHours(p));
    }
  }
}
