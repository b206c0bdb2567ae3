/**
 * ChrTool._solve_row: the cheapest way to cover one band's columns left to right with glyphs
 * from the cost tables, found by dynamic programming from the right edge, then read back from
 * the left as the row's characters.
 *
 * From each column a step either takes the fallback (one blank column, cost 0.1) or the glyph
 * a table keeps at that column (its width in columns, at the table's cost). The source compares
 * with a strict `<`, so the fallback wins ties and, among tables, the first in dict order does.
 */
module Segmenter {
  import opened Wrappers
  import opened Glyph
  import opened Grouping
  import opened CostTable

  /** The cost of skipping one column with the blank. */
  const FallbackCost: real := 0.1

  /** A step of a tiling: the blank fallback, or the glyph kept by table `table`. */
  datatype Move = Fallback | Use(table: nat)

  /** The decision at one column: its cost to the right edge and the step taken. */
  datatype Cell = Cell(cost: real, move: Move)

  /** The source's `best_choice` entry: the step's width and glyph. */
  type Step = (nat, GlyphTemplate)

  /** Cost and glyph arrays of every table have equal length. */
  ghost predicate Shaped(tables: seq<Table>)
  {
    forall t :: 0 <= t < |tables| ==> |tables[t].chosen| == |tables[t].costs|
  }

  /**
   * Table `t` offers a step at column `x`: it advances, stays inside the band, has an entry at
   * `x` and the entry is a number.
   */
  predicate Eligible(tables: seq<Table>, width: nat, x: nat, t: nat)
  {
    && t < |tables|
    && 0 < tables[t].width
    && x + tables[t].width <= width
    && x < |tables[t].costs|
    && tables[t].costs[x].Some?
  }

  /** The cheapest cost of covering columns `x` .. `width`. */
  function BestFrom(tables: seq<Table>, width: nat, x: nat): real
    requires x <= width
    decreases width - x, |tables| + 1
  {
    if x == width then 0.0 else ScanUpTo(tables, width, x, |tables|).cost
  }

  /** The cost of taking table `t`'s glyph at `x` and then the cheapest rest. */
  function Total(tables: seq<Table>, width: nat, x: nat, t: nat): real
    requires Eligible(tables, width, x, t)
    decreases width - x, 0
  {
    tables[t].costs[x].value + BestFrom(tables, width, x + tables[t].width)
  }

  /** The decision at `x` after comparing the fallback and the first `n` tables. */
  function ScanUpTo(tables: seq<Table>, width: nat, x: nat, n: nat): (c: Cell)
    requires x < width && n <= |tables|
    decreases width - x, n
    ensures c.move.Use? ==> c.move.table < n && Eligible(tables, width, x, c.move.table)
  {
    if n == 0 then Cell(BestFrom(tables, width, x + 1) + FallbackCost, Fallback)
    else
      var c := ScanUpTo(tables, width, x, n - 1);
      if Eligible(tables, width, x, n - 1) && Total(tables, width, x, n - 1) < c.cost
      then Cell(Total(tables, width, x, n - 1), Use(n - 1))
      else c
  }

  /** The decision at `x`: the fallback against every table. */
  function Decision(tables: seq<Table>, width: nat, x: nat): Cell
    requires x < width
  {
    ScanUpTo(tables, width, x, |tables|)
  }

  // ---------------------------------------------------------------------------------------
  // Tilings.

  /** How many columns a step covers. */
  function Advance(tables: seq<Table>, m: Move): nat
    requires m.Use? ==> m.table < |tables|
  {
    match m
    case Fallback => 1
    case Use(t) => tables[t].width
  }

  /** Step `m` can be taken at column `x`. */
  predicate MoveOk(tables: seq<Table>, width: nat, x: nat, m: Move)
  {
    match m
    case Fallback => x < width
    case Use(t) => Eligible(tables, width, x, t)
  }

  function MoveCost(tables: seq<Table>, width: nat, x: nat, m: Move): real
    requires MoveOk(tables, width, x, m)
  {
    match m
    case Fallback => FallbackCost
    case Use(t) => tables[t].costs[x].value
  }

  /** `path` covers columns `x` .. `width` exactly, step after step. */
  ghost predicate IsPath(tables: seq<Table>, width: nat, x: nat, path: seq<Move>)
    decreases |path|
  {
    if |path| == 0 then x == width
    else MoveOk(tables, width, x, path[0]) && IsPath(tables, width, x + Advance(tables, path[0]), path[1..])
  }

  ghost function PathCost(tables: seq<Table>, width: nat, x: nat, path: seq<Move>): real
    requires IsPath(tables, width, x, path)
    decreases |path|
  {
    if |path| == 0 then 0.0
    else MoveCost(tables, width, x, path[0]) + PathCost(tables, width, x + Advance(tables, path[0]), path[1..])
  }

  /** The characters a tiling writes, one per step. */
  function PathChars(tables: seq<Table>, width: nat, x: nat, path: seq<Move>): seq<char>
    requires Shaped(tables) && IsPath(tables, width, x, path)
    decreases |path|
  {
    if |path| == 0 then []
    else
      var ch := match path[0] case Fallback => Filler().ch case Use(t) => tables[t].chosen[x].ch;
      [ch] + PathChars(tables, width, x + Advance(tables, path[0]), path[1..])
  }

  /** The tiling that follows the decisions from `x`. */
  function Trace(tables: seq<Table>, width: nat, x: nat): (path: seq<Move>)
    requires x <= width
    decreases width - x
    ensures IsPath(tables, width, x, path)
  {
    if x == width then []
    else
      var m := Decision(tables, width, x).move;
      [m] + Trace(tables, width, x + Advance(tables, m))
  }

  // ---------------------------------------------------------------------------------------
  // The decisions are optimal.

  /**
   * The scan keeps the first cheapest option: its cost is no more than the fallback's or any
   * compared table's, and a table replaces the fallback or an earlier table only when strictly
   * cheaper.
   */
  lemma {:induction false} ScanIsFirstLowest(tables: seq<Table>, width: nat, x: nat, n: nat)
    requires x < width && n <= |tables|
    ensures var c := ScanUpTo(tables, width, x, n);
      && c.cost <= BestFrom(tables, width, x + 1) + FallbackCost
      && (forall t :: 0 <= t < n && Eligible(tables, width, x, t) ==> c.cost <= Total(tables, width, x, t))
      && (c.move == Fallback ==> c.cost == BestFrom(tables, width, x + 1) + FallbackCost)
      && (c.move.Use? ==>
            && c.cost == Total(tables, width, x, c.move.table)
            && c.cost < BestFrom(tables, width, x + 1) + FallbackCost
            && forall t :: 0 <= t < c.move.table && Eligible(tables, width, x, t) ==> c.cost < Total(tables, width, x, t))
  {
    if n > 0 {
      ScanIsFirstLowest(tables, width, x, n - 1);
    }
  }

  /** No tiling from `x` costs less than `BestFrom(x)`. */
  lemma {:induction false} BestIsLowerBound(tables: seq<Table>, width: nat, x: nat, path: seq<Move>)
    requires x <= width && IsPath(tables, width, x, path)
    ensures BestFrom(tables, width, x) <= PathCost(tables, width, x, path)
    decreases |path|
  {
    if |path| > 0 {
      var m := path[0];
      var y := x + Advance(tables, m);
      BestIsLowerBound(tables, width, y, path[1..]);
      ScanIsFirstLowest(tables, width, x, |tables|);
    }
  }

  /** Following the decisions from `x` costs exactly `BestFrom(x)`. */
  lemma {:induction false} TraceIsOptimal(tables: seq<Table>, width: nat, x: nat)
    requires x <= width
    ensures PathCost(tables, width, x, Trace(tables, width, x)) == BestFrom(tables, width, x)
    decreases width - x
  {
    if x < width {
      var m := Decision(tables, width, x).move;
      var y := x + Advance(tables, m);
      TraceIsOptimal(tables, width, y);
      ScanIsFirstLowest(tables, width, x, |tables|);
      var path := Trace(tables, width, x);
      assert path[0] == m && path[1..] == Trace(tables, width, y);
    }
  }

  /** A tiling writes at most one character per column, and at least one in a non-empty band. */
  lemma {:induction false} PathLength(tables: seq<Table>, width: nat, x: nat, path: seq<Move>)
    requires Shaped(tables) && x <= width && IsPath(tables, width, x, path)
    ensures |PathChars(tables, width, x, path)| == |path|
    ensures |path| <= width - x
    ensures x < width ==> 0 < |path|
    decreases |path|
  {
    if |path| > 0 {
      PathLength(tables, width, x + Advance(tables, path[0]), path[1..]);
    }
  }

  // ---------------------------------------------------------------------------------------
  // The dynamic programme as the source runs it.

  /** float32 addition with inf: a sum with an inf operand is inf. */
  function AddCost(a: Option<real>, b: Option<real>): Option<real>
  {
    if a.Some? && b.Some? then Some(a.value + b.value) else None
  }

  function StepOf(tables: seq<Table>, x: nat, m: Move): Step
    requires Shaped(tables)
    requires m.Use? ==> m.table < |tables| && x < |tables[m.table].costs|
  {
    match m
    case Fallback => (1, Filler())
    case Use(t) => (tables[t].width, tables[t].chosen[x])
  }

  /**
   * The inner loop at column `x`: the fallback, then every table in order. `best` holds inf at
   * `x` itself, so a table of width 0 would add inf and never win; the tables _precompute_costs
   * returns all have positive width, but the loop does not rely on it.
   */
  method Decide(tables: seq<Table>, width: nat, best: seq<Option<real>>, x: nat)
    returns (cost: real, step: Step)
    requires Shaped(tables) && x < width && |best| == width + 1
    requires best[x].None?
    requires forall y :: x < y <= width ==> best[y] == Some(BestFrom(tables, width, y))
    ensures cost == Decision(tables, width, x).cost
    ensures step == StepOf(tables, x, Decision(tables, width, x).move)
  {
    cost := best[x + 1].value + FallbackCost;
    step := (1, Filler());
    ghost var move := Fallback;
    var n := 0;
    while n < |tables|
      invariant 0 <= n <= |tables|
      invariant Cell(cost, move) == ScanUpTo(tables, width, x, n)
      invariant step == StepOf(tables, x, move)
    {
      var t := tables[n];
      if x + t.width <= width && x < |t.costs| {
        var glyph := t.chosen[x];
        var total := AddCost(t.costs[x], best[x + t.width]);
        if Improves(total, Some(cost)) {
          cost, step := total.value, (t.width, glyph);
          move := Use(n);
        }
      }
      n := n + 1;
    }
  }

  /** The right-to-left pass filling `best_cost` and `best_choice`. */
  method Solve(tables: seq<Table>, width: nat) returns (best: seq<Option<real>>, choice: seq<Step>)
    requires Shaped(tables)
    ensures |best| == width + 1 && |choice| == width + 1
    ensures forall x :: 0 <= x <= width ==> best[x] == Some(BestFrom(tables, width, x))
    ensures forall x :: 0 <= x < width ==> choice[x] == StepOf(tables, x, Decision(tables, width, x).move)
  {
    best := seq(width + 1, i => if i == width then Some(0.0) else None);
    choice := seq(width + 1, _ => (1, Filler()));
    var x := width;
    while x > 0
      invariant 0 <= x <= width
      invariant |best| == width + 1 && |choice| == width + 1
      invariant forall y :: 0 <= y < x ==> best[y].None?
      invariant forall y :: x <= y <= width ==> best[y] == Some(BestFrom(tables, width, y))
      invariant forall y :: x <= y < width ==> choice[y] == StepOf(tables, y, Decision(tables, width, y).move)
    {
      x := x - 1;
      var cost, step := Decide(tables, width, best, x);
      best := best[x := Some(cost)];
      choice := choice[x := step];
    }
  }

  function Max(a: nat, b: nat): nat
  {
    if a < b then b else a
  }

  /** The characters the decisions write from `x` on. */
  ghost function CharsFrom(tables: seq<Table>, width: nat, x: nat): seq<char>
    requires Shaped(tables) && x <= width
  {
    PathChars(tables, width, x, Trace(tables, width, x))
  }

  /** The read-back's step at `x`: the chosen glyph's character, then past its width. */
  lemma TraceChars(tables: seq<Table>, width: nat, x: nat)
    requires Shaped(tables) && x < width
    ensures var step := StepOf(tables, x, Decision(tables, width, x).move);
      && x + Max(step.0, 1) <= width
      && CharsFrom(tables, width, x) == [step.1.ch] + CharsFrom(tables, width, x + Max(step.0, 1))
  {
    var m := Decision(tables, width, x).move;
    var path := Trace(tables, width, x);
    assert path[0] == m && path[1..] == Trace(tables, width, x + Advance(tables, m));
  }

  /** The left-to-right read-back: the glyph chosen at `x`, then `x` moves past it. */
  method Walk(tables: seq<Table>, width: nat, choice: seq<Step>) returns (chars: seq<char>)
    requires Shaped(tables) && |choice| == width + 1
    requires forall x :: 0 <= x < width ==> choice[x] == StepOf(tables, x, Decision(tables, width, x).move)
    ensures chars == CharsFrom(tables, width, 0)
  {
    chars := [];
    var x := 0;
    while x < width
      invariant 0 <= x <= width
      invariant chars + CharsFrom(tables, width, x) == CharsFrom(tables, width, 0)
      decreases width - x
    {
      var (stepWidth, glyph) := choice[x];
      TraceChars(tables, width, x);
      chars := chars + [glyph.ch];
      x := x + Max(stepWidth, 1);
    }
  }

  /**
   * _solve_row: the characters of a cheapest tiling of the band, or the error _precompute_costs
   * raises when a group has width 0. `tables` are the band's cost tables, returned for the
   * statement only.
   */
  method SolveRow(sim: Similarity, block: Block, groups: seq<Group>) returns (r: Result<seq<char>, string>, ghost tables: seq<Table>)
    requires IsBlock(block) && AreGroups(groups)
    ensures r.Failure? <==> HasZeroWidth(groups)
    ensures r.Failure? ==> r.error == ReshapeError
    ensures r.Success? ==> AreTablesFor(tables, sim, block, groups) && Shaped(tables)
    ensures r.Success? ==> var width := BlockWidth(block);
      && r.value == CharsFrom(tables, width, 0)
      && forall path :: IsPath(tables, width, 0, path) ==>
           PathCost(tables, width, 0, Trace(tables, width, 0)) <= PathCost(tables, width, 0, path)
    ensures r.Success? ==> |r.value| <= BlockWidth(block) && (0 < BlockWidth(block) ==> 0 < |r.value|)
  {
    var width := BlockWidth(block);
    var pre := PrecomputeCosts(sim, block, groups);
    if pre.Failure? {
      return Failure(pre.error), [];
    }
    var ts := pre.value;
    tables := ts;
    TablesShaped(ts, sim, block, groups);
    var best, choice := Solve(ts, width);
    var chars := Walk(ts, width, choice);
    TraceIsOptimal(tables, width, 0);
    PathLength(tables, width, 0, Trace(tables, width, 0));
    forall path | IsPath(tables, width, 0, path)
      ensures PathCost(tables, width, 0, Trace(tables, width, 0)) <= PathCost(tables, width, 0, path)
    {
      BestIsLowerBound(tables, width, 0, path);
    }
    r := Success(chars);
  }

  lemma TablesShaped(tables: seq<Table>, sim: Similarity, block: Block, groups: seq<Group>)
    requires IsBlock(block) && AreGroups(groups) && AreTablesFor(tables, sim, block, groups)
    ensures Shaped(tables)
  {
  }
}
