/**
 Reading the solved schedule back out (src/police_allocation.py:93-109):
 the four nested loops over officers, cells, days and blocks that emit one
 row for every variable `x[i][g][d][b]` with a positive value.
 */
module Extraction {
  import opened Sums
  import opened Cells
  import opened Formulation

  /** One output row: officer `officer` patrols `cell` on `day` in `block` for `hours` hours. */
  datatype Assignment = Assignment(ward: string, officer: int, cell: CellId, day: int, block: Block, hours: nat)

  /** The row for one variable, if its value is positive. */
  function Emit(p: WardProblem, s: Schedule, i: int, g: CellId, d: int, b: Block): seq<Assignment> {
    var h := s.hours(i, g, d, b);
    if h > 0 then [Assignment(p.ward, i, g, d, b, h)] else []
  }

  function DayRows(p: WardProblem, s: Schedule, i: int, g: CellId, d: int): seq<Assignment> {
    FlatMap(Blocks, b => Emit(p, s, i, g, d, b))
  }

  function CellRows(p: WardProblem, s: Schedule, i: int, g: CellId): seq<Assignment> {
    FlatMap(Days(), d => DayRows(p, s, i, g, d))
  }

  function OfficerRows(p: WardProblem, s: Schedule, i: int): seq<Assignment> {
    FlatMap(p.cells, g => CellRows(p, s, i, g))
  }

  /** The result table of `solve_ward`, in officer, cell, day, block order. */
  function Extract(p: WardProblem, s: Schedule): seq<Assignment> {
    FlatMap(Officers(p.officers), i => OfficerRows(p, s, i))
  }

  /** The row describes a variable of the problem, with that variable's positive value. */
  predicate Emitted(p: WardProblem, s: Schedule, r: Assignment) {
    && r.ward == p.ward
    && 1 <= r.officer <= p.officers
    && r.cell in p.cells
    && 1 <= r.day <= NumDays
    && r.hours > 0
    && r.hours == s.hours(r.officer, r.cell, r.day, r.block)
  }

  /** Position of a block in `Blocks`. */
  function BlockIndex(b: Block): (k: nat)
    ensures k < |Blocks| && Blocks[k] == b
  {
    match b
    case Daytime => 0
    case Evening => 1
  }

  /** Lexicographic order on (officer, position of the cell in `G`, day, block). */
  predicate Before(cells: seq<CellId>, u: Assignment, v: Assignment) {
    || u.officer < v.officer
    || (u.officer == v.officer && IndexOf(cells, u.cell) < IndexOf(cells, v.cell))
    || (u.officer == v.officer && u.cell == v.cell && u.day < v.day)
    || (u.officer == v.officer && u.cell == v.cell && u.day == v.day && BlockIndex(u.block) < BlockIndex(v.block))
  }

  predicate SortedRows(cells: seq<CellId>, rows: seq<Assignment>) {
    forall j, k | 0 <= j < k < |rows| :: Before(cells, rows[j], rows[k])
  }

  function RowHours(r: Assignment): int {
    r.hours
  }

  /** `df['hours'].sum()`. */
  function AssignedHours(rows: seq<Assignment>): int {
    Sum(rows, RowHours)
  }

  /** Hours the rows give to one cell, day and block. */
  function SlotTotal(rows: seq<Assignment>, g: CellId, d: int, b: Block): int {
    Sum(rows, (r: Assignment) => if r.cell == g && r.day == d && r.block == b then r.hours else 0)
  }

  /** Hours the rows give to one officer on one day. */
  function OfficerDayTotal(rows: seq<Assignment>, i: int, d: int): int {
    Sum(rows, (r: Assignment) => if r.officer == i && r.day == d then r.hours else 0)
  }

  // ------------------------------------------------------------- membership

  lemma DayRowsMember(p: WardProblem, s: Schedule, i: int, g: CellId, d: int, r: Assignment)
    ensures r in DayRows(p, s, i, g, d) <==>
            r.ward == p.ward && r.officer == i && r.cell == g && r.day == d &&
            r.hours > 0 && r.hours == s.hours(i, g, d, r.block)
  {
    FlatMapMember(Blocks, b => Emit(p, s, i, g, d, b), r);
    if r.ward == p.ward && r.officer == i && r.cell == g && r.day == d &&
       r.hours > 0 && r.hours == s.hours(i, g, d, r.block) {
      assert r in Emit(p, s, i, g, d, Blocks[BlockIndex(r.block)]);
    }
  }

  lemma CellRowsMember(p: WardProblem, s: Schedule, i: int, g: CellId, r: Assignment)
    ensures r in CellRows(p, s, i, g) <==>
            r.ward == p.ward && r.officer == i && r.cell == g && 1 <= r.day <= NumDays &&
            r.hours > 0 && r.hours == s.hours(i, g, r.day, r.block)
  {
    FlatMapMember(Days(), d => DayRows(p, s, i, g, d), r);
    forall d {
      DayRowsMember(p, s, i, g, d, r);
    }
    if 1 <= r.day <= NumDays {
      assert Days()[r.day - 1] == r.day;
    }
  }

  lemma OfficerRowsMember(p: WardProblem, s: Schedule, i: int, r: Assignment)
    ensures r in OfficerRows(p, s, i) <==>
            r.ward == p.ward && r.officer == i && r.cell in p.cells && 1 <= r.day <= NumDays &&
            r.hours > 0 && r.hours == s.hours(i, r.cell, r.day, r.block)
  {
    FlatMapMember(p.cells, g => CellRows(p, s, i, g), r);
    forall g {
      CellRowsMember(p, s, i, g, r);
    }
    if r.cell in p.cells {
      assert p.cells[IndexOf(p.cells, r.cell)] == r.cell;
    }
  }

  /**
   A row is in the result exactly when it records a variable of the problem
   together with that variable's positive value: every positive variable is
   reported and nothing else is.
   */
  lemma ExtractMember(p: WardProblem, s: Schedule, r: Assignment)
    ensures r in Extract(p, s) <==> Emitted(p, s, r)
  {
    FlatMapMember(Officers(p.officers), i => OfficerRows(p, s, i), r);
    forall i {
      OfficerRowsMember(p, s, i, r);
    }
    if 1 <= r.officer <= p.officers {
      assert Officers(p.officers)[r.officer - 1] == r.officer;
    }
  }

  /** With no cells in the ward the result is empty. */
  lemma ExtractEmptyWard(p: WardProblem, s: Schedule)
    requires |p.cells| == 0
    ensures Extract(p, s) == []
  {
    if Extract(p, s) != [] {
      ExtractMember(p, s, Extract(p, s)[0]);
    }
  }

  // --------------------------------------------------------------- ordering

  lemma DayRowsSorted(p: WardProblem, s: Schedule, i: int, g: CellId, d: int)
    ensures SortedRows(p.cells, DayRows(p, s, i, g, d))
  {
  }

  lemma CellRowsSorted(p: WardProblem, s: Schedule, i: int, g: CellId)
    ensures SortedRows(p.cells, CellRows(p, s, i, g))
  {
    var lt := (u, v) => Before(p.cells, u, v);
    var f := d => DayRows(p, s, i, g, d);
    forall m | 0 <= m < |Days()|
      ensures SortedBy(f(Days()[m]), lt)
    {
      DayRowsSorted(p, s, i, g, Days()[m]);
    }
    forall j, k, u, v | 0 <= j < k < |Days()| && u in f(Days()[j]) && v in f(Days()[k])
      ensures lt(u, v)
    {
      DayRowsMember(p, s, i, g, Days()[j], u);
      DayRowsMember(p, s, i, g, Days()[k], v);
    }
    FlatMapSorted(Days(), f, lt);
  }

  lemma OfficerRowsSorted(p: WardProblem, s: Schedule, i: int)
    requires Distinct(p.cells)
    ensures SortedRows(p.cells, OfficerRows(p, s, i))
  {
    var lt := (u, v) => Before(p.cells, u, v);
    var f := g => CellRows(p, s, i, g);
    forall m | 0 <= m < |p.cells|
      ensures SortedBy(f(p.cells[m]), lt)
    {
      CellRowsSorted(p, s, i, p.cells[m]);
    }
    forall j, k, u, v | 0 <= j < k < |p.cells| && u in f(p.cells[j]) && v in f(p.cells[k])
      ensures lt(u, v)
    {
      CellRowsMember(p, s, i, p.cells[j], u);
      CellRowsMember(p, s, i, p.cells[k], v);
      IndexOfDistinct(p.cells, j);
      IndexOfDistinct(p.cells, k);
    }
    FlatMapSorted(p.cells, f, lt);
  }

  /**
   With distinct cell ids the rows come out strictly ordered by officer, then
   by the cell's position in `G`, then by day, then by block; in particular
   no row occurs twice.
   */
  lemma ExtractSorted(p: WardProblem, s: Schedule)
    requires Distinct(p.cells)
    ensures SortedRows(p.cells, Extract(p, s))
    ensures Distinct(Extract(p, s))
  {
    var lt := (u, v) => Before(p.cells, u, v);
    var f := i => OfficerRows(p, s, i);
    var officers := Officers(p.officers);
    forall m | 0 <= m < |officers|
      ensures SortedBy(f(officers[m]), lt)
    {
      OfficerRowsSorted(p, s, officers[m]);
    }
    forall j, k, u, v | 0 <= j < k < |officers| && u in f(officers[j]) && v in f(officers[k])
      ensures lt(u, v)
    {
      OfficerRowsMember(p, s, officers[j], u);
      OfficerRowsMember(p, s, officers[k], v);
    }
    FlatMapSorted(officers, f, lt);
  }

  // ------------------------------------------------------------------- sums

  /** A per-row measure summed over the rows of one variable, one day, one cell, one officer. */
  function EmitValue(p: WardProblem, s: Schedule, m: Assignment -> int, i: int, g: CellId, d: int, b: Block): int {
    Sum(Emit(p, s, i, g, d, b), m)
  }

  function DayValue(p: WardProblem, s: Schedule, m: Assignment -> int, i: int, g: CellId, d: int): int {
    Sum(Blocks, b => EmitValue(p, s, m, i, g, d, b))
  }

  function CellValue(p: WardProblem, s: Schedule, m: Assignment -> int, i: int, g: CellId): int {
    Sum(Days(), d => DayValue(p, s, m, i, g, d))
  }

  function OfficerValue(p: WardProblem, s: Schedule, m: Assignment -> int, i: int): int {
    Sum(p.cells, g => CellValue(p, s, m, i, g))
  }

  /** Summing a measure over the result table follows the loop nest. */
  lemma ExtractValue(p: WardProblem, s: Schedule, m: Assignment -> int)
    ensures Sum(Extract(p, s), m) == Sum(Officers(p.officers), i => OfficerValue(p, s, m, i))
  {
    forall i, g, d {
      FlatMapSum(Blocks, b => Emit(p, s, i, g, d, b), m, b => EmitValue(p, s, m, i, g, d, b));
    }
    forall i, g {
      FlatMapSum(Days(), d => DayRows(p, s, i, g, d), m, d => DayValue(p, s, m, i, g, d));
    }
    forall i {
      FlatMapSum(p.cells, g => CellRows(p, s, i, g), m, g => CellValue(p, s, m, i, g));
    }
    FlatMapSum(Officers(p.officers), i => OfficerRows(p, s, i), m, i => OfficerValue(p, s, m, i));
  }

  lemma EmitHours(p: WardProblem, s: Schedule, i: int, g: CellId, d: int, b: Block)
    ensures EmitValue(p, s, RowHours, i, g, d, b) == s.hours(i, g, d, b)
  {
    var e := Emit(p, s, i, g, d, b);
    if e != [] {
      assert e == [Assignment(p.ward, i, g, d, b, s.hours(i, g, d, b))];
      assert e[1..] == [];
      assert Sum(e[1..], RowHours) == 0;
    }
  }

  lemma OfficerValueHours(p: WardProblem, s: Schedule, i: int)
    ensures OfficerValue(p, s, RowHours, i) == OfficerHours(p, s, i)
  {
    forall g, d
      ensures DayValue(p, s, RowHours, i, g, d) == DayCellHours(s, i, g, d)
    {
      forall b {
        EmitHours(p, s, i, g, d, b);
      }
      SumCongruence(Blocks, b => EmitValue(p, s, RowHours, i, g, d, b), b => s.hours(i, g, d, b));
    }
    forall g
      ensures CellValue(p, s, RowHours, i, g) == CellHours(s, i, g)
    {
      SumCongruence(Days(), d => DayValue(p, s, RowHours, i, g, d), d => DayCellHours(s, i, g, d));
    }
    SumCongruence(p.cells, g => CellValue(p, s, RowHours, i, g), g => CellHours(s, i, g));
  }

  /** The hours of the result table add up to every hour the schedule assigns. */
  lemma ExtractHours(p: WardProblem, s: Schedule)
    ensures AssignedHours(Extract(p, s)) == TotalHours(p, s)
  {
    ExtractValue(p, s, RowHours);
    forall i {
      OfficerValueHours(p, s, i);
    }
    SumCongruence(Officers(p.officers), i => OfficerValue(p, s, RowHours, i), i => OfficerHours(p, s, i));
  }

  /** An empty result means the schedule assigns no hours at all, and conversely. */
  lemma ExtractEmptyIff(p: WardProblem, s: Schedule)
    ensures Extract(p, s) == [] <==> TotalHours(p, s) == 0
  {
    var rows := Extract(p, s);
    ExtractHours(p, s);
    if rows != [] {
      ExtractMember(p, s, rows[0]);
      forall r | r in rows
        ensures RowHours(r) >= 0
      {
      }
      SumBoundsTerm(rows, RowHours, rows[0]);
    }
  }

  // ------------------------------------------------- constraints on the rows

  /** The measure of `SlotTotal`, seen through one variable's rows. */
  lemma EmitSlotValue(p: WardProblem, s: Schedule, g: CellId, d: int, b: Block,
                      i: int, g': CellId, d': int, b': Block)
    ensures EmitValue(p, s, (r: Assignment) => if r.cell == g && r.day == d && r.block == b then r.hours else 0, i, g', d', b')
            == if g' == g && d' == d && b' == b then s.hours(i, g', d', b') else 0
  {
    var e := Emit(p, s, i, g', d', b');
    if e != [] {
      assert e[1..] == [];
      assert Sum(e[1..], (r: Assignment) => if r.cell == g && r.day == d && r.block == b then r.hours else 0) == 0;
    }
  }

  /** Summed over one officer's rows, the `SlotTotal` measure picks out `x[i][g][d][b]`. */
  lemma OfficerSlotValue(p: WardProblem, s: Schedule, g: CellId, d: int, b: Block, i: int)
    requires Distinct(p.cells)
    requires g in p.cells && 1 <= d <= NumDays
    ensures OfficerValue(p, s, (r: Assignment) => if r.cell == g && r.day == d && r.block == b then r.hours else 0, i)
            == s.hours(i, g, d, b)
  {
    var m := (r: Assignment) => if r.cell == g && r.day == d && r.block == b then r.hours else 0;
    forall g', d'
      ensures DayValue(p, s, m, i, g', d') == if g' == g && d' == d then s.hours(i, g, d, b) else 0
    {
      forall b' {
        EmitSlotValue(p, s, g, d, b, i, g', d', b');
      }
      BlocksCover(b);
      SumSingle(Blocks, b' => EmitValue(p, s, m, i, g', d', b'), b);
    }
    forall g'
      ensures CellValue(p, s, m, i, g') == if g' == g then s.hours(i, g, d, b) else 0
    {
      SumSingle(Days(), d' => DayValue(p, s, m, i, g', d'), d);
    }
    SumSingle(p.cells, g' => CellValue(p, s, m, i, g'), g);
  }

  /**
   Capacity, read off the result table: the rows for one cell, day and block
   carry exactly the load the capacity constraint bounds, so at most `t_g` hours.
   */
  lemma RowsWithinCapacity(p: WardProblem, s: Schedule, g: CellId, d: int, b: Block)
    requires Feasible(p, s)
    requires Distinct(p.cells)
    requires g in p.cells && 1 <= d <= NumDays
    ensures SlotTotal(Extract(p, s), g, d, b) == SlotLoad(p, s, g, d, b)
    ensures SlotTotal(Extract(p, s), g, d, b) <= Requirement(p, g)
  {
    var m := (r: Assignment) => if r.cell == g && r.day == d && r.block == b then r.hours else 0;
    ExtractValue(p, s, m);
    forall i {
      OfficerSlotValue(p, s, g, d, b, i);
    }
    SumCongruence(Officers(p.officers), i => OfficerValue(p, s, m, i), i => s.hours(i, g, d, b));
  }

  /** The measure of `OfficerDayTotal`, seen through one variable's rows. */
  lemma EmitOfficerDayValue(p: WardProblem, s: Schedule, i: int, d: int,
                            i': int, g': CellId, d': int, b': Block)
    ensures EmitValue(p, s, (r: Assignment) => if r.officer == i && r.day == d then r.hours else 0, i', g', d', b')
            == if i' == i && d' == d then s.hours(i', g', d', b') else 0
  {
    var e := Emit(p, s, i', g', d', b');
    if e != [] {
      assert e[1..] == [];
      assert Sum(e[1..], (r: Assignment) => if r.officer == i && r.day == d then r.hours else 0) == 0;
    }
  }

  /** Summed over one officer's rows, the `OfficerDayTotal` measure is that officer's hours on the day. */
  lemma OfficerDayValue(p: WardProblem, s: Schedule, i: int, d: int, i': int)
    requires 1 <= d <= NumDays
    ensures OfficerValue(p, s, (r: Assignment) => if r.officer == i && r.day == d then r.hours else 0, i')
            == if i' == i then DailyHours(p, s, i, d) else 0
  {
    var m := (r: Assignment) => if r.officer == i && r.day == d then r.hours else 0;
    forall g', d'
      ensures DayValue(p, s, m, i', g', d') == if i' == i && d' == d then DayCellHours(s, i, g', d') else 0
    {
      forall b' {
        EmitOfficerDayValue(p, s, i, d, i', g', d', b');
      }
      if i' == i && d' == d {
        SumCongruence(Blocks, b' => EmitValue(p, s, m, i', g', d', b'), b' => s.hours(i, g', d', b'));
      } else {
        SumConstant(Blocks, b' => EmitValue(p, s, m, i', g', d', b'), 0);
      }
    }
    forall g'
      ensures CellValue(p, s, m, i', g') == if i' == i then DayCellHours(s, i, g', d) else 0
    {
      SumSingle(Days(), d' => DayValue(p, s, m, i', g', d'), d);
    }
    if i' == i {
      SumCongruence(p.cells, g' => CellValue(p, s, m, i', g'), g' => DayCellHours(s, i, g', d));
    } else {
      SumConstant(p.cells, g' => CellValue(p, s, m, i', g'), 0);
    }
  }

  /**
   The labour rule, read off the result table: an officer's rows on one day
   carry that officer's daily hours, at most two, and none on a day off.
   */
  lemma RowsWithinDailyHours(p: WardProblem, s: Schedule, i: int, d: int)
    requires Feasible(p, s)
    requires 1 <= i <= p.officers && 1 <= d <= NumDays
    ensures OfficerDayTotal(Extract(p, s), i, d) == DailyHours(p, s, i, d)
    ensures OfficerDayTotal(Extract(p, s), i, d) <= MaxDailyHours
    ensures !s.works(i, d) ==> OfficerDayTotal(Extract(p, s), i, d) == 0
  {
    var m := (r: Assignment) => if r.officer == i && r.day == d then r.hours else 0;
    ExtractValue(p, s, m);
    forall i'
      ensures OfficerValue(p, s, m, i') == if i' == i then DailyHours(p, s, i, d) else 0
    {
      OfficerDayValue(p, s, i, d, i');
    }
    SumSingle(Officers(p.officers), i' => OfficerValue(p, s, m, i'), i);
    DailyHoursBound(p, s, i, d);
    HoursNonNegative(p, s);
  }

  /** The labour rule, read off the result table: an officer's rows fall on at most four distinct days. */
  lemma RowsWithinWorkingDays(p: WardProblem, s: Schedule, i: int)
    requires Feasible(p, s)
    requires 1 <= i <= p.officers
    ensures |set r | r in Extract(p, s) && r.officer == i :: r.day| <= MaxWorkingDays
  {
    var rowDays := set r | r in Extract(p, s) && r.officer == i :: r.day;
    var working := set d | d in Days() && s.works(i, d);
    forall d | d in rowDays
      ensures d in working
    {
      var r :| r in Extract(p, s) && r.officer == i && r.day == d;
      ExtractMember(p, s, r);
      DailyHoursBound(p, s, i, d);
    }
    WorkingDaysBound(p, s, i);
    assert rowDays <= working;
    SubsetCardinality(rowDays, working);
  }

  lemma SubsetCardinality<T>(a: set<T>, b: set<T>)
    requires a <= b
    ensures |a| <= |b|
  {
    assert b == a + (b - a);
  }
}
