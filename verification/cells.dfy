/**
 The grid cells the scheduler works on, and the per-ward cell selection of
 `solve_ward` (src/police_allocation.py:57-62).

 A cell carries the ward its centroid falls in (if any), its residential
 area `S_g` in square kilometres, and its required coverage-hours
 `t_g = ceil(S_g / c)` with the coverage rate `c = 2.6` km² per hour.
 */
module Cells {
  import opened Sums

  type CellId = int

  /** The ward whose polygon contains the cell's centroid; `Unassigned` when none does. */
  datatype WardMembership = Unassigned | Ward(code: string)

  datatype Cell = Cell(id: CellId, ward: WardMembership, residentialArea: real, required: nat)

  /** Patrol coverage rate, in square kilometres per officer-hour. */
  const CoverageRate: real := 2.6

  /** The least integer not below `r`. */
  function Ceil(r: real): (n: int)
    ensures (n as real) - 1.0 < r <= n as real
  {
    -((-r).Floor)
  }

  /** Required coverage-hours per day-block for a residential area. */
  function RequiredHours(area: real): (t: int)
    ensures (t as real) - 1.0 < area / CoverageRate <= t as real
  {
    Ceil(area / CoverageRate)
  }

  /** An area needs at least one coverage-hour exactly when it is positive. */
  lemma RequiredHoursPositive(area: real)
    requires area >= 0.0
    ensures RequiredHours(area) >= 0
    ensures RequiredHours(area) >= 1 <==> area > 0.0
  {
  }

  /** A cell as the grid preprocessing produces it: non-negative area and `t_g` derived from it. */
  predicate WellFormedCell(c: Cell) {
    c.residentialArea >= 0.0 && c.required == RequiredHours(c.residentialArea)
  }

  /** The identifiers of `cells`, in order. */
  function Ids(cells: seq<Cell>): (ids: seq<CellId>)
    ensures |ids| == |cells|
    ensures forall j | 0 <= j < |cells| :: ids[j] == cells[j].id
    decreases |cells|
  {
    if |cells| == 0 then [] else [cells[0].id] + Ids(cells[1..])
  }

  /** The cell table: well-formed cells whose identifiers (the grid's row index) are unique. */
  predicate WellFormedTable(table: seq<Cell>) {
    && (forall c | c in table :: WellFormedCell(c))
    && Distinct(Ids(table))
  }

  predicate InWard(c: Cell, ward: string) {
    c.ward == Ward(ward)
  }

  /** A cell takes part in the ward's problem when it lies in the ward and has residential area. */
  predicate Eligible(c: Cell, ward: string) {
    InWard(c, ward) && c.residentialArea > 0.0
  }

  /** The cells of the ward, in table order (`grid[grid['Ward code'] == ward_code]`). */
  function WardCells(table: seq<Cell>, ward: string): (cells: seq<Cell>)
    ensures forall c :: c in cells <==> c in table && InWard(c, ward)
    decreases |table|
  {
    if |table| == 0 then []
    else (if InWard(table[0], ward) then [table[0]] else []) + WardCells(table[1..], ward)
  }

  /** The eligible cells of the ward, in table order: the rows behind `G`. */
  function SelectCells(table: seq<Cell>, ward: string): (cells: seq<Cell>)
    ensures |cells| <= |table|
    ensures forall c :: c in cells <==> c in table && Eligible(c, ward)
    decreases |table|
  {
    if |table| == 0 then []
    else (if Eligible(table[0], ward) then [table[0]] else []) + SelectCells(table[1..], ward)
  }

  /**
   `t_g` as a dictionary from cell id to required hours (`set_index('cell_id')['t_g'].to_dict()`):
   a later row overwrites an earlier one with the same id.
   */
  function RequiredMap(cells: seq<Cell>): (m: map<CellId, nat>)
    ensures m.Keys == set c | c in cells :: c.id
    decreases |cells|
  {
    if |cells| == 0 then map[]
    else map[cells[0].id := cells[0].required] + RequiredMap(cells[1..])
  }

  // ------------------------------------------------------------------ lemmas

  /** Selection keeps the input order: it distributes over concatenation of tables. */
  lemma {:induction false} SelectCellsAppend(a: seq<Cell>, b: seq<Cell>, ward: string)
    ensures SelectCells(a + b, ward) == SelectCells(a, ward) + SelectCells(b, ward)
    decreases |a|
  {
    if |a| == 0 {
      assert a + b == b;
    } else {
      assert (a + b)[0] == a[0];
      assert (a + b)[1..] == a[1..] + b;
      SelectCellsAppend(a[1..], b, ward);
    }
  }

  lemma DistinctCons<T>(x: T, s: seq<T>)
    ensures Distinct([x] + s) <==> x !in s && Distinct(s)
  {
    var t := [x] + s;
    assert forall j | 0 <= j < |s| :: t[j + 1] == s[j];
    if x !in s && Distinct(s) {
      forall j, k | 0 <= j < k < |t|
        ensures t[j] != t[k]
      {
        if j > 0 {
          assert t[j] == s[j - 1] && t[k] == s[k - 1];
        } else {
          assert t[k] == s[k - 1];
        }
      }
    }
    if Distinct(t) {
      assert forall j | 0 <= j < |s| :: s[j] == t[j + 1] != t[0];
    }
  }

  lemma {:induction false} IdsMember(cells: seq<Cell>, id: CellId)
    ensures id in Ids(cells) <==> exists c :: c in cells && c.id == id
  {
  }

  /** A table with no eligible cell for the ward selects nothing. */
  lemma {:induction false} SelectCellsNone(table: seq<Cell>, ward: string)
    requires forall c | c in table :: !Eligible(c, ward)
    ensures SelectCells(table, ward) == []
    decreases |table|
  {
    if |table| != 0 {
      assert table[0] in table;
      assert forall c | c in table[1..] :: c in table;
      SelectCellsNone(table[1..], ward);
    }
  }

  /** The selected cells of a table with unique identifiers have unique identifiers. */
  lemma {:induction false} SelectCellsDistinct(table: seq<Cell>, ward: string)
    requires Distinct(Ids(table))
    ensures Distinct(Ids(SelectCells(table, ward)))
    decreases |table|
  {
    if |table| != 0 {
      var head, tail := table[0], table[1..];
      assert Ids(table) == [head.id] + Ids(tail);
      DistinctCons(head.id, Ids(tail));
      SelectCellsDistinct(tail, ward);
      if Eligible(head, ward) {
        var rest := SelectCells(tail, ward);
        assert SelectCells(table, ward) == [head] + rest;
        assert Ids([head] + rest) == [head.id] + Ids(rest);
        IdsMember(rest, head.id);
        IdsMember(tail, head.id);
        DistinctCons(head.id, Ids(rest));
      }
    }
  }

  /** With unique identifiers, the dictionary maps each cell's id to that cell's requirement. */
  lemma {:induction false} RequiredMapLookup(cells: seq<Cell>, c: Cell)
    requires Distinct(Ids(cells))
    requires c in cells
    ensures c.id in RequiredMap(cells) && RequiredMap(cells)[c.id] == c.required
    decreases |cells|
  {
    var head, tail := cells[0], cells[1..];
    assert Ids(cells) == [head.id] + Ids(tail);
    DistinctCons(head.id, Ids(tail));
    IdsMember(tail, head.id);
    if c != head {
      assert c in tail;
      RequiredMapLookup(tail, c);
      IdsMember(tail, c.id);
    }
  }
}
