/**
 What the objective of `solve_ward` (src/police_allocation.py:69-72)
 measures. Regrouped by cell, day and block, the objective adds for every
 slot its weight `W_d * V_b` times the fraction of `t_g` the slot receives.
 The weights of a cell's fourteen slots add up to one, so under the capacity
 rule the objective is at most the number of cells, and reaches it exactly
 when every slot is saturated. An optimal schedule is therefore saturated
 whenever some feasible schedule is.
 */
module Scoring {
  import opened Sums
  import opened Cells
  import opened Formulation

  /** All officers' objective terms for one cell, day and block. */
  function SlotScore(p: WardProblem, s: Schedule, g: CellId, d: int, b: Block): real {
    RealSum(Officers(p.officers), i => SlotValue(p, s, i, g, d, b))
  }

  /** All officers' objective terms for one cell and day. */
  function DayScore(p: WardProblem, s: Schedule, g: CellId, d: int): real {
    RealSum(Blocks, b => SlotScore(p, s, g, d, b))
  }

  /** All officers' objective terms for one cell over the week. */
  function WeekScore(p: WardProblem, s: Schedule, g: CellId): real {
    RealSum(Days(), d => DayScore(p, s, g, d))
  }

  // ------------------------------------------------------------ regrouping

  lemma DayScoreByOfficer(p: WardProblem, s: Schedule, g: CellId, d: int)
    ensures RealSum(Officers(p.officers), i => DayCellScore(p, s, i, g, d)) == DayScore(p, s, g, d)
  {
    RealSumExchange(Officers(p.officers), Blocks,
      i => b => SlotValue(p, s, i, g, d, b), b => i => SlotValue(p, s, i, g, d, b),
      i => DayCellScore(p, s, i, g, d), b => SlotScore(p, s, g, d, b));
  }

  lemma WeekScoreByOfficer(p: WardProblem, s: Schedule, g: CellId)
    ensures RealSum(Officers(p.officers), i => CellScore(p, s, i, g)) == WeekScore(p, s, g)
  {
    forall d {
      DayScoreByOfficer(p, s, g, d);
    }
    RealSumExchange(Officers(p.officers), Days(),
      i => d => DayCellScore(p, s, i, g, d), d => i => DayCellScore(p, s, i, g, d),
      i => CellScore(p, s, i, g), d => DayScore(p, s, g, d));
  }

  /** The objective, regrouped by cell as the capacity constraints group the hours. */
  lemma ObjectiveByCell(p: WardProblem, s: Schedule)
    requires PositiveRequirements(p)
    ensures Objective(p, s) == RealSum(p.cells, g => WeekScore(p, s, g))
  {
    forall g {
      WeekScoreByOfficer(p, s, g);
    }
    RealSumExchange(Officers(p.officers), p.cells,
      i => g => CellScore(p, s, i, g), g => i => CellScore(p, s, i, g),
      i => OfficerScore(p, s, i), g => WeekScore(p, s, g));
  }

  // ---------------------------------------------------------------- bounds

  /** `r = w * x / t` with `0 <= x <= t` lies in `[0, w]`, and is `w` exactly when `x = t`. */
  lemma FractionBound(r: real, t: real, w: real, x: real)
    requires r * t == w * x
    requires t > 0.0 && w > 0.0 && 0.0 <= x <= t
    ensures 0.0 <= r <= w
    ensures r == w <==> x == t
  {
    assert 0.0 <= w * x <= w * t;
    assert (w - r) * t >= 0.0;
    assert r * t >= 0.0;
    if r == w {
      assert w * t == w * x;
    }
  }

  /** One objective term, times `t_g`, is the weighted hours. */
  lemma SlotValueTimes(p: WardProblem, s: Schedule, i: int, g: CellId, d: int, b: Block)
    requires Requirement(p, g) >= 1
    ensures SlotValue(p, s, i, g, d, b) * (Requirement(p, g) as real) ==
            DayWeight(d) * BlockWeight(b) * (s.hours(i, g, d, b) as real)
  {
  }

  /**
   Over any officers, a slot's objective terms, times `t_g`, add up to the
   slot's weight `W_d * V_b` times the hours those officers give it: the
   slot scores its weight times the fraction of `t_g` it receives.
   */
  lemma {:induction false} SlotScoreIsCoverage(officers: seq<int>, p: WardProblem, s: Schedule,
                                               g: CellId, d: int, b: Block)
    requires Requirement(p, g) >= 1
    ensures RealSum(officers, i => SlotValue(p, s, i, g, d, b)) * (Requirement(p, g) as real) ==
            DayWeight(d) * BlockWeight(b) * (Sum(officers, i => s.hours(i, g, d, b)) as real)
    decreases |officers|
  {
    if |officers| != 0 {
      SlotScoreIsCoverage(officers[1..], p, s, g, d, b);
      SlotValueTimes(p, s, officers[0], g, d, b);
    }
  }

  /**
   Officers who together give a slot at most `t_g` hours make it score
   between zero and its weight, and the full weight exactly at `t_g` hours.
   */
  lemma SlotFraction(officers: seq<int>, p: WardProblem, s: Schedule, g: CellId, d: int, b: Block)
    requires Requirement(p, g) >= 1
    requires Sum(officers, i => s.hours(i, g, d, b)) <= Requirement(p, g)
    ensures 0.0 <= RealSum(officers, i => SlotValue(p, s, i, g, d, b)) <= DayWeight(d) * BlockWeight(b)
    ensures RealSum(officers, i => SlotValue(p, s, i, g, d, b)) == DayWeight(d) * BlockWeight(b) <==>
            Sum(officers, i => s.hours(i, g, d, b)) == Requirement(p, g)
  {
    SlotScoreIsCoverage(officers, p, s, g, d, b);
    SumNonNegative(officers, i => s.hours(i, g, d, b));
    assert DayWeight(d) * BlockWeight(b) > 0.0;
    FractionBound(RealSum(officers, i => SlotValue(p, s, i, g, d, b)), Requirement(p, g) as real,
                  DayWeight(d) * BlockWeight(b), Sum(officers, i => s.hours(i, g, d, b)) as real);
  }

  /**
   Under the capacity rule a slot scores between zero and its weight `W_d * V_b`,
   and reaches the weight exactly when it receives its full `t_g`.
   */
  lemma SlotScoreBound(p: WardProblem, s: Schedule, g: CellId, d: int, b: Block)
    requires CapacityRule(p, s)
    requires g in p.cells && 1 <= d <= NumDays
    requires Requirement(p, g) >= 1
    ensures 0.0 <= SlotScore(p, s, g, d, b) <= DayWeight(d) * BlockWeight(b)
    ensures SlotScore(p, s, g, d, b) == DayWeight(d) * BlockWeight(b) <==>
            SlotLoad(p, s, g, d, b) == Requirement(p, g)
  {
    assert SlotLoad(p, s, g, d, b) <= Requirement(p, g);
    SlotFraction(Officers(p.officers), p, s, g, d, b);
  }

  /** Under the capacity rule a cell scores at most `W_d` on a day, exactly when both blocks are saturated. */
  lemma DayScoreBound(p: WardProblem, s: Schedule, g: CellId, d: int)
    requires CapacityRule(p, s)
    requires g in p.cells && 1 <= d <= NumDays
    requires Requirement(p, g) >= 1
    ensures 0.0 <= DayScore(p, s, g, d) <= DayWeight(d)
    ensures DayScore(p, s, g, d) == DayWeight(d) <==>
            forall b :: SlotLoad(p, s, g, d, b) == Requirement(p, g)
  {
    forall b {
      SlotScoreBound(p, s, g, d, b);
    }
    var weight := b => DayWeight(d) * BlockWeight(b);
    RealSumMonotone(Blocks, b => SlotScore(p, s, g, d, b), weight);
    RealSumEqualIff(Blocks, b => SlotScore(p, s, g, d, b), weight);
    RealSumNonNegative(Blocks, b => SlotScore(p, s, g, d, b));
    assert RealSum(Blocks, weight) == DayWeight(d) by {
      assert Blocks[1..][1..] == [];
    }
    if DayScore(p, s, g, d) == DayWeight(d) {
      forall b
        ensures SlotLoad(p, s, g, d, b) == Requirement(p, g)
      {
        BlocksCover(b);
      }
    }
  }

  /** Under the capacity rule a cell scores at most one over the week, exactly when it is saturated. */
  lemma WeekScoreBound(p: WardProblem, s: Schedule, g: CellId)
    requires CapacityRule(p, s)
    requires g in p.cells
    requires Requirement(p, g) >= 1
    ensures 0.0 <= WeekScore(p, s, g) <= 1.0
    ensures WeekScore(p, s, g) == 1.0 <==>
            forall d, b | 1 <= d <= NumDays :: SlotLoad(p, s, g, d, b) == Requirement(p, g)
  {
    forall d | d in Days() {
      DayScoreBound(p, s, g, d);
    }
    RealSumMonotone(Days(), d => DayScore(p, s, g, d), DayWeight);
    RealSumEqualIff(Days(), d => DayScore(p, s, g, d), DayWeight);
    RealSumNonNegative(Days(), d => DayScore(p, s, g, d));
    RealSumConstant(Days(), DayWeight, 1.0 / 7.0);
    if WeekScore(p, s, g) == 1.0 {
      forall d, b | 1 <= d <= NumDays
        ensures SlotLoad(p, s, g, d, b) == Requirement(p, g)
      {
        assert d in Days();
        DayScoreBound(p, s, g, d);
      }
    }
    if forall d, b | 1 <= d <= NumDays :: SlotLoad(p, s, g, d, b) == Requirement(p, g) {
      forall d | d in Days()
        ensures DayScore(p, s, g, d) == DayWeight(d)
      {
        DayScoreBound(p, s, g, d);
      }
    }
  }

  /**
   Under the capacity rule every cell scores one over the week exactly when
   the schedule is saturated.
   */
  lemma WeekScoresFull(p: WardProblem, s: Schedule)
    requires CapacityRule(p, s)
    requires PositiveRequirements(p)
    ensures (forall g | g in p.cells :: WeekScore(p, s, g) == 1.0) <==> Saturated(p, s)
  {
    if forall g | g in p.cells :: WeekScore(p, s, g) == 1.0 {
      forall g, d, b | g in p.cells && 1 <= d <= NumDays
        ensures SlotLoad(p, s, g, d, b) == Requirement(p, g)
      {
        WeekScoreBound(p, s, g);
      }
    }
    if Saturated(p, s) {
      forall g | g in p.cells
        ensures WeekScore(p, s, g) == 1.0
      {
        WeekScoreBound(p, s, g);
      }
    }
  }

  /** The most a cell can score over the week. */
  function FullScore(g: CellId): real {
    1.0
  }

  /** Under the capacity rule the cells' weekly scores add up to at most the number of cells. */
  lemma CellScoresAtMost(p: WardProblem, s: Schedule)
    requires CapacityRule(p, s)
    requires PositiveRequirements(p)
    ensures 0.0 <= RealSum(p.cells, g => WeekScore(p, s, g)) <= |p.cells| as real
  {
    forall g | g in p.cells
      ensures 0.0 <= WeekScore(p, s, g) <= FullScore(g)
    {
      WeekScoreBound(p, s, g);
    }
    RealSumMonotone(p.cells, g => WeekScore(p, s, g), FullScore);
    RealSumNonNegative(p.cells, g => WeekScore(p, s, g));
    RealSumCount(p.cells, FullScore);
  }

  /**
   Under the capacity rule the cells' weekly scores add up to at most the
   number of cells, and to exactly that when every slot is saturated.
   */
  lemma CellScoresBound(p: WardProblem, s: Schedule)
    requires CapacityRule(p, s)
    requires PositiveRequirements(p)
    ensures 0.0 <= RealSum(p.cells, g => WeekScore(p, s, g)) <= |p.cells| as real
    ensures RealSum(p.cells, g => WeekScore(p, s, g)) == |p.cells| as real <==> Saturated(p, s)
  {
    CellScoresAtMost(p, s);
    forall g | g in p.cells
      ensures WeekScore(p, s, g) <= FullScore(g)
    {
      WeekScoreBound(p, s, g);
    }
    RealSumEqualIff(p.cells, g => WeekScore(p, s, g), FullScore);
    RealSumCount(p.cells, FullScore);
    WeekScoresFull(p, s);
  }

  /**
   For a feasible schedule the objective lies between zero and the number of
   cells, and equals the number of cells exactly when the schedule is saturated.
   */
  lemma ObjectiveBound(p: WardProblem, s: Schedule)
    requires Feasible(p, s)
    requires PositiveRequirements(p)
    ensures 0.0 <= Objective(p, s) <= |p.cells| as real
    ensures Objective(p, s) == |p.cells| as real <==> Saturated(p, s)
  {
    ObjectiveByCell(p, s);
    CellScoresBound(p, s);
  }

  /**
   When some feasible schedule saturates the ward, every optimal schedule does:
   the solver's answer then covers every cell, day and block in full.
   */
  lemma OptimalSaturates(p: WardProblem, s: Schedule, full: Schedule)
    requires Optimal(p, s)
    requires Feasible(p, full) && Saturated(p, full)
    ensures Saturated(p, s)
  {
    ObjectiveBound(p, s);
    ObjectiveBound(p, full);
  }
}
