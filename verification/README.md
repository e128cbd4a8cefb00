# Per-ward patrol scheduling, modelled in Dafny

This project models the core of `src/police_allocation.py`. That script
schedules a ward's police patrols over one week as an integer program. The
model covers four parts.

- **Cell selection.** The cells whose centroid lies in the ward and which have
  residential area `S_g > 0` form the ordered list `G`. Their required
  coverage-hours `t_g = ceil(S_g / 2.6)` form a dictionary.
- **The integer program.** The script builds it for 100 officers, days `1..7`
  and the blocks `06-18` and `18-22`. It has:
  - a binary works-today variable `y[i][d]`;
  - integer patrol hours `x[i][g][d][b] >= 0`;
  - the labour rule: at most 4 working days, and at most 2 hours on a working
    day;
  - the capacity rule: at most `t_g` officer-hours per cell, day and block;
  - the objective `Σ W_d · V_b · x / t_g`.
- **Reading the answer back.** There is one row per positive `x[i][g][d][b]`,
  in officer, cell, day, block order.
- **The summary the entry point prints.** It reports:
  - coverage of the ideal;
  - missing hours and extra officers;
  - available hours, utilisation, saved hours and saved officers.

The MILP solver is an external black box. A `Schedule` stands for its answer:
a value for every `y` and `x`. Every theorem holds for any schedule that meets
the constraints (`Feasible`). Optimality is stated as a predicate (`Optimal`)
and used in one lemma. The model never claims the solver finds an optimum.

The model has six modules:

- `Sums`: finite sums over sequences (integer and real), sum exchange, and
  flattening of nested loops.
- `Cells`: the cell table, `t_g`, and the selection of `G`.
- `Formulation`: index sets, the ward problem, the schedule, the constraints
  and the objective.
- `Extraction`: the result rows.
- `Scoring`: what the objective measures.
- `Outcome`: the printed figures.

## Model

| member | source | states |
|---|---|---|
| Cells.RequiredHours | src/police_allocation.py:48-49 | `t_g` is the least integer not below `S_g / 2.6` |
| Cells.RequiredHoursPositive | src/police_allocation.py:48-49 | for `S_g >= 0`, `t_g >= 0`, and `t_g >= 1` exactly when `S_g > 0` |
| Cells.WardCells | src/police_allocation.py:59 | a cell is among the ward's cells exactly when it is in the table and in the ward |
| Cells.SelectCells | src/police_allocation.py:59-60 | a cell is selected exactly when it is in the table, in the ward, and has `S_g > 0`; nothing else is selected |
| Cells.SelectCellsAppend | src/police_allocation.py:59-61 | selection keeps table order: selecting from `a + b` gives the selection from `a` followed by the selection from `b` |
| Cells.SelectCellsNone | src/police_allocation.py:59-61 | a table with no eligible cell selects nothing |
| Cells.SelectCellsDistinct | src/police_allocation.py:61 | with unique cell ids in the table, `G` has no repeated id |
| Cells.RequiredMap | src/police_allocation.py:62 | the dictionary's keys are exactly the selected ids |
| Cells.RequiredMapLookup | src/police_allocation.py:62 | with unique ids, the dictionary maps each selected cell's id to that cell's `t_g` |
| Formulation.Range | src/police_allocation.py:50 | `range(1, n + 1)`: `n` distinct values, the `j`-th is `j + 1`, and membership is exactly `1..n` |
| Formulation.BuildWard | src/police_allocation.py:59-62 | the problem's ward and pool of 100 officers; every id in `G` has a `t_g`; an id is in `G` exactly when some eligible cell carries it |
| Formulation.BuildWardRequirements | src/police_allocation.py:48-49 | `G` is the selected ids in table order without repeats; the dictionary agrees with the table; every `t_g` in `G` is at least 1, so the objective's division is defined |
| Formulation.ZeroScheduleFeasible | src/police_allocation.py:66-85 | the all-zero assignment meets every constraint with zero hours, also when `G` is empty |
| Formulation.HoursNonNegative | src/police_allocation.py:67 | all officer, cell, day, load and total sums of `x` are non-negative |
| Formulation.WorkingDaysBound | src/police_allocation.py:76 | under the labour rule an officer has at most 4 days with `y = 1` |
| Formulation.DailyHoursBound | src/police_allocation.py:77-78 | under the labour rule an officer works at most 2 hours on a day, and 0 hours on every cell and block of a day with `y = 0` |
| Formulation.OfficerHoursByDay | src/police_allocation.py:75-78 | an officer's weekly hours equal the sum of that officer's daily hours |
| Formulation.AssignedWithinPool | src/police_allocation.py:54-78 | a feasible schedule assigns between 0 and `officers · 2 · 4` hours |
| Formulation.TotalHoursByCell | src/police_allocation.py:81-85 | the total hours equal the per-cell loads summed over `G` |
| Formulation.DayLoadWithinRequirement | src/police_allocation.py:81-85 | under the capacity rule a cell receives at most `2 · t_g` hours a day, with equality exactly when both blocks get `t_g` |
| Formulation.CellLoadWithinRequirement | src/police_allocation.py:81-85 | under the capacity rule a cell receives at most `14 · t_g` hours a week, with equality exactly when every day and block gets `t_g` |
| Formulation.AssignedWithinNeed | src/police_allocation.py:81-85 | a feasible schedule assigns at most `Σ 14 · t_g` hours, with equality exactly when every cell, day and block is saturated |
| Formulation.Schedule | src/police_allocation.py:66-67 | definition: a value for every `y[i][d]` (a boolean) and every `x[i][g][d][b]` (a natural number); properties in the lemmas below |
| Formulation.LabourRule | src/police_allocation.py:75-78 | definition; properties in `Formulation.WorkingDaysBound`, `Formulation.DailyHoursBound` and `Formulation.AssignedWithinPool` |
| Formulation.CapacityRule | src/police_allocation.py:81-85 | definition; properties in `Formulation.DayLoadWithinRequirement`, `Formulation.CellLoadWithinRequirement` and `Formulation.AssignedWithinNeed` |
| Formulation.Feasible | src/police_allocation.py:66-85 | definition: the labour and capacity rules; properties in `Formulation.ZeroScheduleFeasible` and the rules' lemmas |
| Formulation.Objective | src/police_allocation.py:69-72 | definition; properties in `Scoring.ObjectiveByCell` and `Scoring.ObjectiveBound` |
| Formulation.Optimal | src/police_allocation.py:65-88 | definition: a feasible schedule that no feasible schedule beats; properties in `Scoring.OptimalSaturates` |
| Extraction.Emit | src/police_allocation.py:98-107 | definition; properties in `Extraction.ExtractMember` and `Extraction.ExtractHours` |
| Extraction.Extract | src/police_allocation.py:93-109 | definition; properties in `Extraction.ExtractMember`, `Extraction.ExtractSorted`, `Extraction.ExtractHours` and `Extraction.ExtractEmptyIff` |
| Extraction.ExtractMember | src/police_allocation.py:93-107 | a row is in the result exactly when it names an officer in `1..100`, a cell in `G`, a day in `1..7` and a block, and carries that variable's value, which is positive |
| Extraction.ExtractEmptyWard | src/police_allocation.py:93-109 | an empty `G` yields no rows |
| Extraction.ExtractSorted | src/police_allocation.py:94-97 | with distinct ids in `G`, the rows are strictly increasing in (officer, position of cell in `G`, day, block), so no row repeats |
| Extraction.ExtractHours | src/police_allocation.py:93-109 | the rows' hours add up to the schedule's total hours |
| Extraction.ExtractEmptyIff | src/police_allocation.py:98-109 | the result is empty exactly when the schedule assigns no hours |
| Extraction.RowsWithinCapacity | src/police_allocation.py:81-107 | the rows for one cell, day and block carry exactly that slot's load, which is at most `t_g` |
| Extraction.RowsWithinDailyHours | src/police_allocation.py:75-107 | an officer's rows on one day carry that officer's daily hours: at most 2, and 0 on a day with `y = 0` |
| Extraction.RowsWithinWorkingDays | src/police_allocation.py:76-107 | an officer's rows fall on at most 4 distinct days |
| Scoring.ObjectiveByCell | src/police_allocation.py:69-72 | the objective, summed in officer, cell, day, block order, equals the same terms regrouped by cell, day and block |
| Scoring.SlotValueTimes | src/police_allocation.py:70 | one objective term times `t_g` is `W_d · V_b · x[i][g][d][b]` |
| Scoring.SlotScoreIsCoverage | src/police_allocation.py:69-72 | for any officers, a slot's objective terms times `t_g` add up to `W_d · V_b` times those officers' hours in the slot |
| Scoring.SlotScoreBound | src/police_allocation.py:69-85 | under the capacity rule a slot scores between 0 and `W_d · V_b`, and reaches `W_d · V_b` exactly when it gets `t_g` hours |
| Scoring.DayScoreBound | src/police_allocation.py:52-72 | a cell scores at most `W_d` on a day, exactly when both blocks are saturated, because `V_b` adds up to 1 |
| Scoring.WeekScoreBound | src/police_allocation.py:52-72 | a cell scores at most 1 over the week, exactly when every slot is saturated, because `W_d` adds up to 1 |
| Scoring.CellScoresBound | src/police_allocation.py:69-85 | the cells' scores add up to at most the number of cells in `G`, exactly when the schedule is saturated |
| Scoring.ObjectiveBound | src/police_allocation.py:69-85 | a feasible schedule's objective lies in between 0 and the number of cells in `G` and equals the number of cells in `G` exactly when every cell, day and block gets `t_g` |
| Scoring.OptimalSaturates | src/police_allocation.py:65-88 | if some feasible schedule saturates the ward, every optimal schedule does |
| Outcome.TotalNeeded | src/police_allocation.py:120-123 | the ideal hours are `14 · t_g` summed over all the ward's cells, and are non-negative |
| Outcome.TotalNeededMatchesProblem | src/police_allocation.py:120-123 | over a well-formed table, that sum over all the ward's cells equals the week's requirement of `G`, because cells left out of `G` have `t_g = 0` |
| Outcome.MissingHours | src/police_allocation.py:128 | `max(0, needed - actual)`: at least the difference, and either 0 or the difference |
| Outcome.CeilDiv | src/police_allocation.py:129 | the least `q` with `a <= q · b` |
| Outcome.FloorDiv | src/police_allocation.py:140 | the greatest `q` with `q · b <= a` |
| Outcome.ExtraOfficers | src/police_allocation.py:127-135 | the fewest officers whose 8 weekly hours cover the missing hours; 0 exactly when nothing is missing |
| Outcome.SavedOfficers | src/police_allocation.py:135-140 | the floor of saved hours over 8: the most officers whose 8 weekly hours fit in them; it is negative exactly when the saved hours are |
| Outcome.SolveWard | src/police_allocation.py:57-109 | the rows for the ward are exactly the emitted rows; their hours are the schedule's total; they are empty exactly when that total is 0 |
| Outcome.Ratio | src/police_allocation.py:124-138 | true division: the quotient times the divisor is the dividend |
| Outcome.Summarise | src/police_allocation.py:118-140 | the printed figures: coverage times needed is actual; missing is `max(0, needed - actual)`; available is `100 · 8`; utilisation times available is actual; saved plus actual is available; extra officers are the ceiling of missing over 8; saved officers are the floor of saved over 8, whatever its sign |
| Outcome.Report | src/police_allocation.py:112-140 | for any solver answer, no summary exactly when the rows are empty; otherwise the summary of the rows' hours against the ward's ideal |
| Outcome.NeedFromCell | src/police_allocation.py:118-124 | a ward with an eligible cell needs at least 14 hours; every result row names such a cell, so the division at line 124 is defined |
| Outcome.ReportEmptyWard | src/police_allocation.py:114-116 | a ward without eligible cells yields no rows and no summary, whatever the solver returns |
| Outcome.SummaryBounds | src/police_allocation.py:124-140 | for `0 < actual <= needed` and `actual <= 800`: coverage and utilisation lie in `(0, 1]`; coverage is 1 and extra officers are 0 exactly when `actual = needed`; saved hours lie in `[0, 800)`; saved officers lie in `[0, 100)` |
| Outcome.ReportSummarisesSchedule | src/police_allocation.py:114-124 | a summary exists exactly when the schedule assigns hours; it then summarises the schedule's total against the ward's weekly requirement, and that total is at most the requirement and at most 800 |
| Outcome.ReportCoverage | src/police_allocation.py:118-129 | coverage lies in `(0, 1]`; missing hours are needed minus assigned; extra officers are the ceiling of missing over 8; full coverage and zero extra officers each hold exactly when the ward is saturated |
| Outcome.ReportUtilisation | src/police_allocation.py:132-140 | available hours are 800; utilisation lies in `(0, 1]`; saved hours are `800 - assigned`, in `[0, 800)`; saved officers are their floor over 8, in `[0, 100)` |

## Left out

- Loading the ward boundaries, the land-use data and the grid is left out. So
  are the CRS transforms, the overlay, the area sums and the centroid spatial
  join (src/police_allocation.py:6-45). These are file I/O and floating-point
  geometry. The model takes the cell table as input: per cell an id, a ward (or
  none), `S_g` and `t_g`.
- Cells.RequiredHours computes `ceil(S_g / 2.6)` over exact reals. It does not
  model floating-point rounding of the division at line 49. `WellFormedTable`
  assumes every `t_g` was derived this way and the ids are unique, as they are
  for the grid's row index.
- The MILP solve (line 88) is a call into an external solver. Its answer is a
  parameter `s` of type `Schedule`, assumed to satisfy `Feasible`. The model
  does not prove that the answer is optimal. `OptimalSaturates` shows only what
  optimality would imply.
- The `int(...)` truncation at line 98 is not modelled. Solver values are
  already natural numbers in the model.
- All `print` output (lines 90, 116, 125, 130, 142-146) is left out. This
  includes the problem-size message and the formatting of percentages.
- Line 120 selects the ward with the literal `'E05013570'`, not `ward_code`.
  Lines 113 and 120 name the same ward, so `Report` takes the ward as a
  parameter and uses it in both places.
- Outcome.Ratio models `actual / total_needed` (line 124) and
  `actual_hours / avail_hours` (line 138) as exact rationals. The script
  computes the nearest double instead, which differs for quotients such as
  1/3. The coverage and utilisation bounds therefore hold for the exact values,
  not for their rounded doubles.
- The divisions by 8 at lines 129 and 140 are modelled as exact integer
  ceiling and floor (`CeilDiv`, `FloorDiv`). Dividing a small integer by 8 is
  exact in binary floating point, so these agree with the script.
- Formulation.Objective uses exact reals for the weights `W_d = 1/7` and
  `V_b = 0.6 / 0.4` (lines 52-53) and for the division by `t_g` (line 70). The
  script and the solver use floating point. `Scoring.ObjectiveBound` and
  `Scoring.OptimalSaturates` therefore state exact equalities that the solver's
  rounded objective only approximates.
- The problem name, `len(prob.variables())` and `len(prob.constraints)` (lines
  65 and 90) serve only the printout. They are not modelled.
- The other source files are not part of this model:
  - src/data_processing.py: CSV reading and floating-point allocation;
  - src/map_viz.py and app.py: map rendering and the web front end;
  - src/generate_fake_data.py: random data generation.

## Notes on the code

- The pool's available hours are `100 · 2 · 4 = 800` (lines 134-136).
- Lines 65-88 have no guard for an empty `G`: the program is built and solved
  even then. The extraction yields no rows, and the entry point prints the "no
  patrol assignments" message.
- `total_needed` (lines 120-123) sums `t_g` over all of the ward's cells, not
  only over `G`. The two agree because a cell with `S_g = 0` has `t_g = 0`
  (`Outcome.TotalNeededMatchesProblem`).
