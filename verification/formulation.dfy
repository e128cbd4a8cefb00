/**
 The per-ward patrol scheduling program of `solve_ward`
 (src/police_allocation.py:50-88): its index sets, its decision variables,
 its constraints and its objective.

 The integer program is handed to an external MILP solver. Here the solver's
 answer is any `Schedule` — a value for every `y[i][d]` and `x[i][g][d][b]` —
 and `Feasible` states the constraints that answer satisfies.
 */
module Formulation {
  import opened Sums
  import opened Cells

  /** Size of the officer pool (`num_officers`). */
  const NumOfficers: nat := 100
  /** At most this many working days per officer per week. */
  const MaxWorkingDays: nat := 4
  /** At most this many patrol hours per officer on a working day. */
  const MaxDailyHours: nat := 2
  const NumDays: nat := 7

  /** `range(1, n + 1)`. */
  function Range(n: nat): (r: seq<int>)
    ensures |r| == n
    ensures forall j | 0 <= j < n :: r[j] == j + 1
    ensures forall k :: k in r <==> 1 <= k <= n
    ensures Distinct(r)
  {
    if n == 0 then [] else Range(n - 1) + [n]
  }

  /** The days of the week, `1..7`. */
  function Days(): seq<int> {
    Range(NumDays)
  }

  /** The officers `1..n`. */
  function Officers(n: nat): seq<int> {
    Range(n)
  }

  /** The two shift blocks of a day, `06-18` and `18-22`. */
  datatype Block = Daytime | Evening

  const Blocks: seq<Block> := [Daytime, Evening]

  /** `W_d`: every day weighs the same. */
  function DayWeight(d: int): real {
    1.0 / 7.0
  }

  /** `V_b`: the relative burglary risk of a shift block. */
  function BlockWeight(b: Block): real {
    match b
    case Daytime => 0.6
    case Evening => 0.4
  }

  lemma BlocksCover(b: Block)
    ensures b in Blocks
  {
  }

  // ----------------------------------------------------------------- problem

  /** One ward's problem: the ordered cell ids `G`, the dictionary `t_g`, the officer count. */
  datatype WardProblem = WardProblem(ward: string, cells: seq<CellId>, required: map<CellId, nat>, officers: nat)

  /** Every cell of `G` has an entry in `t_g`. */
  predicate WellFormedProblem(p: WardProblem) {
    forall g | g in p.cells :: g in p.required
  }

  /** `t_g[g]`, read as zero outside the dictionary. */
  function Requirement(p: WardProblem, g: CellId): nat {
    if g in p.required then p.required[g] else 0
  }

  /** Cell selection for a ward: `G` and `t_g` from the eligible rows of the table. */
  function BuildWard(table: seq<Cell>, ward: string): (p: WardProblem)
    ensures p.ward == ward && p.officers == NumOfficers
    ensures WellFormedProblem(p)
    ensures forall g :: g in p.cells <==> exists c :: c in table && Eligible(c, ward) && c.id == g
  {
    var selected := SelectCells(table, ward);
    var p := WardProblem(ward, Ids(selected), RequiredMap(selected), NumOfficers);
    assert forall g :: g in p.cells <==> exists c :: c in selected && c.id == g by {
      forall g {
        IdsMember(selected, g);
      }
    }
    p
  }

  /**
   For a well-formed table, `G` is the selected ids in table order without
   repetition, `t_g` agrees with the table, and every `t_g` is at least one,
   so the objective's division by `t_g[g]` is always defined.
   */
  lemma BuildWardRequirements(table: seq<Cell>, ward: string)
    requires WellFormedTable(table)
    ensures BuildWard(table, ward).cells == Ids(SelectCells(table, ward))
    ensures Distinct(BuildWard(table, ward).cells)
    ensures forall c | c in table && Eligible(c, ward) ::
              Requirement(BuildWard(table, ward), c.id) == c.required
    ensures forall g | g in BuildWard(table, ward).cells :: Requirement(BuildWard(table, ward), g) >= 1
  {
    var p := BuildWard(table, ward);
    var selected := SelectCells(table, ward);
    SelectCellsDistinct(table, ward);
    forall c | c in table && Eligible(c, ward)
      ensures Requirement(p, c.id) == c.required >= 1
    {
      RequiredMapLookup(selected, c);
      RequiredHoursPositive(c.residentialArea);
    }
    forall g | g in p.cells
      ensures Requirement(p, g) >= 1
    {
      var c :| c in table && Eligible(c, ward) && c.id == g;
    }
  }

  // ---------------------------------------------------------------- schedule

  /**
   The solver's answer: `works(i, d)` is the binary `y[i][d]`, `hours(i, g, d, b)`
   the non-negative integer `x[i][g][d][b]`.
   */
  datatype Schedule = Schedule(works: (int, int) -> bool, hours: (int, CellId, int, Block) -> nat)

  /** The schedule with every variable at zero. */
  function ZeroSchedule(): Schedule {
    Schedule((i, d) => false, (i, g, d, b) => 0)
  }

  /** Hours of officer `i` on cell `g` and day `d`, over both blocks. */
  function DayCellHours(s: Schedule, i: int, g: CellId, d: int): int {
    Sum(Blocks, b => s.hours(i, g, d, b))
  }

  /** Hours of officer `i` on cell `g` over the week. */
  function CellHours(s: Schedule, i: int, g: CellId): int {
    Sum(Days(), d => DayCellHours(s, i, g, d))
  }

  /** Hours of officer `i` over the ward's cells and the week. */
  function OfficerHours(p: WardProblem, s: Schedule, i: int): int {
    Sum(p.cells, g => CellHours(s, i, g))
  }

  /** All hours the schedule assigns, summed in officer, cell, day, block order. */
  function TotalHours(p: WardProblem, s: Schedule): int {
    Sum(Officers(p.officers), i => OfficerHours(p, s, i))
  }

  /** `Σ_d y[i][d]`. */
  function WorkingDays(s: Schedule, i: int): int {
    Sum(Days(), d => Indicator(s.works(i, d)))
  }

  /** `Σ_{g, b} x[i][g][d][b]`: officer `i`'s hours on day `d`. */
  function DailyHours(p: WardProblem, s: Schedule, i: int, d: int): int {
    Sum(p.cells, g => DayCellHours(s, i, g, d))
  }

  /** `Σ_i x[i][g][d][b]`: the hours all officers spend on one cell, day and block. */
  function SlotLoad(p: WardProblem, s: Schedule, g: CellId, d: int, b: Block): int {
    Sum(Officers(p.officers), i => s.hours(i, g, d, b))
  }

  /** Hours all officers spend on cell `g` on day `d`, over both blocks. */
  function DayLoad(p: WardProblem, s: Schedule, g: CellId, d: int): int {
    Sum(Blocks, b => SlotLoad(p, s, g, d, b))
  }

  /** Hours all officers spend on cell `g` over the week. */
  function CellLoad(p: WardProblem, s: Schedule, g: CellId): int {
    Sum(Days(), d => DayLoad(p, s, g, d))
  }

  /** Labour rule: at most 4 working days, at most 2 hours on a working day and none on another. */
  predicate LabourRule(p: WardProblem, s: Schedule) {
    && (forall i | 1 <= i <= p.officers :: WorkingDays(s, i) <= MaxWorkingDays)
    && (forall i, d | 1 <= i <= p.officers && 1 <= d <= NumDays ::
          DailyHours(p, s, i, d) <= MaxDailyHours * Indicator(s.works(i, d)))
  }

  /** Capacity rule: no cell, day and block gets more hours than the cell requires. */
  predicate CapacityRule(p: WardProblem, s: Schedule) {
    forall g, d, b | g in p.cells && 1 <= d <= NumDays :: SlotLoad(p, s, g, d, b) <= Requirement(p, g)
  }

  /** The constraints of the integer program (integrality and `x >= 0` are in the types). */
  predicate Feasible(p: WardProblem, s: Schedule) {
    WellFormedProblem(p) && LabourRule(p, s) && CapacityRule(p, s)
  }

  /** Every cell, day and block gets exactly the hours it requires. */
  predicate Saturated(p: WardProblem, s: Schedule) {
    forall g, d, b | g in p.cells && 1 <= d <= NumDays :: SlotLoad(p, s, g, d, b) == Requirement(p, g)
  }

  /** The hours needed to saturate every cell, day and block of the ward. */
  function RequiredWeekHours(p: WardProblem): int {
    Sum(p.cells, g => NumDays * |Blocks| * Requirement(p, g))
  }

  // --------------------------------------------------------------- objective

  /** Every cell of the ward requires at least one hour. */
  predicate PositiveRequirements(p: WardProblem) {
    forall g | g in p.cells :: Requirement(p, g) >= 1
  }

  /** `W_d * V_b * x[i][g][d][b] / t_g[g]`, one term of the objective. */
  function SlotValue(p: WardProblem, s: Schedule, i: int, g: CellId, d: int, b: Block): real {
    var t := Requirement(p, g);
    if t == 0 then 0.0 else DayWeight(d) * BlockWeight(b) * (s.hours(i, g, d, b) as real) / (t as real)
  }

  /** Officer `i`'s objective terms on cell `g` and day `d`, over both blocks. */
  function DayCellScore(p: WardProblem, s: Schedule, i: int, g: CellId, d: int): real {
    RealSum(Blocks, b => SlotValue(p, s, i, g, d, b))
  }

  /** Officer `i`'s objective terms on cell `g` over the week. */
  function CellScore(p: WardProblem, s: Schedule, i: int, g: CellId): real {
    RealSum(Days(), d => DayCellScore(p, s, i, g, d))
  }

  /** Officer `i`'s objective terms over the ward. */
  function OfficerScore(p: WardProblem, s: Schedule, i: int): real {
    RealSum(p.cells, g => CellScore(p, s, i, g))
  }

  /**
   The objective to maximise: the weighted, requirement-normalised hours,
   summed in officer, cell, day, block order. The source divides by `t_g[g]`,
   so every cell of the ward must require at least one hour.
   */
  function Objective(p: WardProblem, s: Schedule): real
    requires PositiveRequirements(p)
  {
    RealSum(Officers(p.officers), i => OfficerScore(p, s, i))
  }

  /** What the solver is asked for: a feasible schedule no feasible schedule beats. */
  ghost predicate Optimal(p: WardProblem, s: Schedule) {
    && PositiveRequirements(p)
    && Feasible(p, s)
    && forall s' :: Feasible(p, s') ==> Objective(p, s') <= Objective(p, s)
  }

  // ------------------------------------------------------------------ lemmas

  /** The all-zero schedule meets every constraint, whatever the ward's cells (even none). */
  lemma ZeroScheduleFeasible(p: WardProblem)
    requires WellFormedProblem(p)
    ensures Feasible(p, ZeroSchedule())
    ensures TotalHours(p, ZeroSchedule()) == 0
  {
    var z := ZeroSchedule();
    assert forall i, d :: !z.works(i, d);
    assert forall i, g, d, b :: z.hours(i, g, d, b) == 0;
    forall i
      ensures WorkingDays(z, i) == 0
    {
      SumConstant(Days(), d => Indicator(z.works(i, d)), 0);
    }
    forall i, g, d
      ensures DayCellHours(z, i, g, d) == 0
    {
      SumConstant(Blocks, b => z.hours(i, g, d, b), 0);
    }
    forall i, d
      ensures DailyHours(p, z, i, d) == 0
    {
      SumConstant(p.cells, g => DayCellHours(z, i, g, d), 0);
    }
    forall g, d, b
      ensures SlotLoad(p, z, g, d, b) == 0
    {
      SumConstant(Officers(p.officers), i => z.hours(i, g, d, b), 0);
    }
    forall i, g
      ensures CellHours(z, i, g) == 0
    {
      SumConstant(Days(), d => DayCellHours(z, i, g, d), 0);
    }
    forall i
      ensures OfficerHours(p, z, i) == 0
    {
      SumConstant(p.cells, g => CellHours(z, i, g), 0);
    }
    SumConstant(Officers(p.officers), i => OfficerHours(p, z, i), 0);
  }

  /** Every partial sum of a schedule's hours is non-negative. */
  lemma HoursNonNegative(p: WardProblem, s: Schedule)
    ensures forall i, g, d :: DayCellHours(s, i, g, d) >= 0
    ensures forall i, g :: CellHours(s, i, g) >= 0
    ensures forall i :: OfficerHours(p, s, i) >= 0
    ensures forall i, d :: DailyHours(p, s, i, d) >= 0
    ensures TotalHours(p, s) >= 0
  {
    forall i, g, d
      ensures DayCellHours(s, i, g, d) >= 0
    {
      SumNonNegative(Blocks, b => s.hours(i, g, d, b));
    }
    forall i, g
      ensures CellHours(s, i, g) >= 0
    {
      SumNonNegative(Days(), d => DayCellHours(s, i, g, d));
    }
    forall i
      ensures OfficerHours(p, s, i) >= 0
    {
      SumNonNegative(p.cells, g => CellHours(s, i, g));
    }
    forall i, d
      ensures DailyHours(p, s, i, d) >= 0
    {
      SumNonNegative(p.cells, g => DayCellHours(s, i, g, d));
    }
    SumNonNegative(Officers(p.officers), i => OfficerHours(p, s, i));
  }

  /** Under the labour rule an officer works on at most four distinct days of the week. */
  lemma WorkingDaysBound(p: WardProblem, s: Schedule, i: int)
    requires LabourRule(p, s)
    requires 1 <= i <= p.officers
    ensures |set d | d in Days() && s.works(i, d)| <= MaxWorkingDays
  {
    assert WorkingDays(s, i) <= MaxWorkingDays;
    SumIndicatorCounts(Days(), d => s.works(i, d), d => Indicator(s.works(i, d)),
                       set d | d in Days() && s.works(i, d));
  }

  /** Under the labour rule an officer works at most two hours a day, and none on a day off. */
  lemma DailyHoursBound(p: WardProblem, s: Schedule, i: int, d: int)
    requires LabourRule(p, s)
    requires 1 <= i <= p.officers && 1 <= d <= NumDays
    ensures DailyHours(p, s, i, d) <= MaxDailyHours
    ensures !s.works(i, d) ==> forall g, b | g in p.cells :: s.hours(i, g, d, b) == 0
  {
    assert DailyHours(p, s, i, d) <= MaxDailyHours * Indicator(s.works(i, d));
    if !s.works(i, d) {
      forall g, b | g in p.cells
        ensures s.hours(i, g, d, b) == 0
      {
        HoursNonNegative(p, s);
        SumBoundsTerm(p.cells, g' => DayCellHours(s, i, g', d), g);
        BlocksCover(b);
        SumBoundsTerm(Blocks, b' => s.hours(i, g, d, b'), b);
      }
    }
  }

  /** An officer's weekly hours, regrouped by day as the labour constraint sums them. */
  lemma OfficerHoursByDay(p: WardProblem, s: Schedule, i: int)
    ensures OfficerHours(p, s, i) == Sum(Days(), d => DailyHours(p, s, i, d))
  {
    SumExchange(p.cells, Days(),
      g => d => DayCellHours(s, i, g, d), d => g => DayCellHours(s, i, g, d),
      g => CellHours(s, i, g), d => DailyHours(p, s, i, d));
  }

  /** A feasible schedule never assigns more than the pool's `officers * 2 * 4` hours. */
  lemma AssignedWithinPool(p: WardProblem, s: Schedule)
    requires Feasible(p, s)
    ensures 0 <= TotalHours(p, s) <= p.officers * (MaxDailyHours * MaxWorkingDays)
  {
    HoursNonNegative(p, s);
    forall i | i in Officers(p.officers)
      ensures OfficerHours(p, s, i) <= MaxDailyHours * MaxWorkingDays
    {
      assert 1 <= i <= p.officers;
      assert WorkingDays(s, i) <= MaxWorkingDays;
      assert forall d | d in Days() :: DailyHours(p, s, i, d) <= MaxDailyHours * Indicator(s.works(i, d));
      OfficerHoursByDay(p, s, i);
      SumMonotone(Days(), d => DailyHours(p, s, i, d), d => MaxDailyHours * Indicator(s.works(i, d)));
      SumScale(Days(), d => Indicator(s.works(i, d)), MaxDailyHours, d => MaxDailyHours * Indicator(s.works(i, d)));
    }
    SumMonotone(Officers(p.officers), i => OfficerHours(p, s, i), i => MaxDailyHours * MaxWorkingDays);
    SumConstant(Officers(p.officers), i => MaxDailyHours * MaxWorkingDays, MaxDailyHours * MaxWorkingDays);
  }

  /** All officers' hours on one cell and day, regrouped by block. */
  lemma DayLoadByOfficer(p: WardProblem, s: Schedule, g: CellId, d: int)
    ensures Sum(Officers(p.officers), i => DayCellHours(s, i, g, d)) == DayLoad(p, s, g, d)
  {
    SumExchange(Officers(p.officers), Blocks,
      i => b => s.hours(i, g, d, b), b => i => s.hours(i, g, d, b),
      i => DayCellHours(s, i, g, d), b => SlotLoad(p, s, g, d, b));
  }

  /** All officers' hours on one cell over the week, regrouped by day. */
  lemma CellLoadByOfficer(p: WardProblem, s: Schedule, g: CellId)
    ensures Sum(Officers(p.officers), i => CellHours(s, i, g)) == CellLoad(p, s, g)
  {
    forall d {
      DayLoadByOfficer(p, s, g, d);
    }
    SumExchange(Officers(p.officers), Days(),
      i => d => DayCellHours(s, i, g, d), d => i => DayCellHours(s, i, g, d),
      i => CellHours(s, i, g), d => DayLoad(p, s, g, d));
  }

  /** The total, regrouped by cell as the capacity constraints sum it. */
  lemma TotalHoursByCell(p: WardProblem, s: Schedule)
    ensures TotalHours(p, s) == Sum(p.cells, g => CellLoad(p, s, g))
  {
    forall g {
      CellLoadByOfficer(p, s, g);
    }
    SumExchange(Officers(p.officers), p.cells,
      i => g => CellHours(s, i, g), g => i => CellHours(s, i, g),
      i => OfficerHours(p, s, i), g => CellLoad(p, s, g));
  }

  /** Under the capacity rule a cell receives at most `2 * t_g` hours a day, both blocks together. */
  lemma DayLoadWithinRequirement(p: WardProblem, s: Schedule, g: CellId, d: int)
    requires CapacityRule(p, s)
    requires g in p.cells && 1 <= d <= NumDays
    ensures DayLoad(p, s, g, d) <= |Blocks| * Requirement(p, g)
    ensures DayLoad(p, s, g, d) == |Blocks| * Requirement(p, g) <==>
            forall b :: SlotLoad(p, s, g, d, b) == Requirement(p, g)
  {
    var t := Requirement(p, g);
    SumEqualIff(Blocks, b => SlotLoad(p, s, g, d, b), b => t);
    SumMonotone(Blocks, b => SlotLoad(p, s, g, d, b), b => t);
    SumConstant(Blocks, b => t, t);
    if DayLoad(p, s, g, d) == |Blocks| * t {
      forall b
        ensures SlotLoad(p, s, g, d, b) == t
      {
        BlocksCover(b);
      }
    }
  }

  /** Under the capacity rule a cell receives at most its weekly requirement `t_g * 7 * 2`. */
  lemma CellLoadWithinRequirement(p: WardProblem, s: Schedule, g: CellId)
    requires CapacityRule(p, s)
    requires g in p.cells
    ensures CellLoad(p, s, g) <= NumDays * |Blocks| * Requirement(p, g)
    ensures CellLoad(p, s, g) == NumDays * |Blocks| * Requirement(p, g) <==>
            forall d, b | 1 <= d <= NumDays :: SlotLoad(p, s, g, d, b) == Requirement(p, g)
  {
    var t := Requirement(p, g);
    forall d | 1 <= d <= NumDays {
      DayLoadWithinRequirement(p, s, g, d);
    }
    SumEqualIff(Days(), d => DayLoad(p, s, g, d), d => |Blocks| * t);
    SumMonotone(Days(), d => DayLoad(p, s, g, d), d => |Blocks| * t);
    SumConstant(Days(), d => |Blocks| * t, |Blocks| * t);
    if CellLoad(p, s, g) == NumDays * |Blocks| * t {
      forall d, b | 1 <= d <= NumDays
        ensures SlotLoad(p, s, g, d, b) == t
      {
        assert d in Days();
        DayLoadWithinRequirement(p, s, g, d);
      }
    }
    if forall d, b | 1 <= d <= NumDays :: SlotLoad(p, s, g, d, b) == t {
      forall d | d in Days()
        ensures DayLoad(p, s, g, d) == |Blocks| * t
      {
        DayLoadWithinRequirement(p, s, g, d);
      }
    }
  }

  /** Under the capacity rule the schedule never assigns more than the ward requires. */
  lemma AssignedWithinNeed(p: WardProblem, s: Schedule)
    requires Feasible(p, s)
    ensures TotalHours(p, s) <= RequiredWeekHours(p)
    ensures TotalHours(p, s) == RequiredWeekHours(p) <==> Saturated(p, s)
  {
    TotalHoursByCell(p, s);
    forall g | g in p.cells
      ensures CellLoad(p, s, g) <= NumDays * |Blocks| * Requirement(p, g)
    {
      CellLoadWithinRequirement(p, s, g);
    }
    SumMonotone(p.cells, g => CellLoad(p, s, g), g => NumDays * |Blocks| * Requirement(p, g));
    SumEqualIff(p.cells, g => CellLoad(p, s, g), g => NumDays * |Blocks| * Requirement(p, g));
    if TotalHours(p, s) == RequiredWeekHours(p) {
      forall g, d, b | g in p.cells && 1 <= d <= NumDays
        ensures SlotLoad(p, s, g, d, b) == Requirement(p, g)
      {
        CellLoadWithinRequirement(p, s, g);
      }
    }
    if Saturated(p, s) {
      forall g | g in p.cells
        ensures CellLoad(p, s, g) == NumDays * |Blocks| * Requirement(p, g)
      {
        CellLoadWithinRequirement(p, s, g);
      }
    }
  }
}
