/**
 * ChrTool._precompute_costs: for one 18-row band of the image and each glyph width that fits,
 * the cheapest glyph of that width at every start column, and its cost.
 *
 * The source scores a glyph against a window by cosine similarity of the mean-centred lower
 * 16 rows, computed in float32 with square-root norms. Here the similarity is a parameter
 * `sim`, so every cost is an exact real: 1 - sim + 0.3 * |window mean - glyph mean|.
 */
module CostTable {
  import opened Wrappers
  import opened Sums
  import opened Glyph
  import opened Grouping

  /** A grayscale pixel of the processed image. */
  type Pixel = v: int | 0 <= v <= 255

  /** A band of the image: CharHeight rows of equal width. */
  type Block = seq<seq<Pixel>>

  ghost predicate IsBlock(block: Block)
  {
    |block| == CharHeight && forall y :: 0 <= y < |block| ==> |block[y]| == |block[0]|
  }

  /** The band's width in pixels, `row_block.shape[1]`. */
  function BlockWidth(block: Block): nat
    requires IsBlock(block)
  {
    |block[0]|
  }

  /** The similarity of a glyph to the window of its width at column `p`, supplied from outside. */
  type Similarity = (Block, nat, GlyphTemplate) -> real

  /** Weight of the mean-intensity difference in a glyph's cost. */
  const DensityWeight: real := 0.3

  function Abs(x: real): real
  {
    if x < 0.0 then -x else x
  }

  lemma BlockBodyInUnit(block: Block, p: nat, w: nat)
    requires IsBlock(block) && p + w <= BlockWidth(block)
    ensures InUnit(Body(block, p, w))
  {
    var b := Body(block, p, w);
    forall i | 0 <= i < |b| ensures 0.0 <= b[i] <= 1.0 {
      BodyIndex(i, w);
      var v: Pixel := block[SkipRows + i / w][p + i % w];
      assert b[i] == v as real / 255.0;
    }
  }

  /** The mean intensity of the lower 16 rows of the `w` columns from `p`, scaled to 0..1. */
  function WindowMean(block: Block, p: nat, w: nat): (m: real)
    requires IsBlock(block) && w > 0 && p + w <= BlockWidth(block)
    ensures 0.0 <= m <= 1.0
  {
    var b := Body(block, p, w);
    BlockBodyInUnit(block, p, w);
    AverageInUnit(b);
    Average(b)
  }

  /**
   * The cost of glyph `g` at column `p`. Only positive widths get here: a width-0 group stops
   * the whole computation before any cost is taken (see PrecomputeCosts).
   */
  function GlyphCost(sim: Similarity, block: Block, p: nat, g: GlyphTemplate): real
    requires IsBlock(block) && WellFormed(g) && g.width > 0 && p + g.width <= BlockWidth(block)
  {
    1.0 - sim(block, p, g) + DensityWeight * Abs(WindowMean(block, p, g.width) - Mean(g))
  }

  /**
   * With a cosine similarity in [-1, 1] the cost lies in [0, 2.3]: 1 - similarity spans [0, 2]
   * and the density penalty adds at most 0.3.
   */
  lemma GlyphCostBounds(sim: Similarity, block: Block, p: nat, g: GlyphTemplate)
    requires IsBlock(block) && WellFormed(g) && g.width > 0 && p + g.width <= BlockWidth(block)
    requires -1.0 <= sim(block, p, g) <= 1.0
    ensures 0.0 <= GlyphCost(sim, block, p, g) <= 2.3
  {
    var d := Abs(WindowMean(block, p, g.width) - Mean(g));
    assert 0.0 <= d <= 1.0;
  }

  // ---------------------------------------------------------------------------------------
  // Keeping the cheapest glyph: `mask = glyph_costs < costs`.

  /**
   * Whether a candidate cost replaces the incumbent. None stands for float32 inf: the initial
   * value, beaten by every number, and as a candidate it beats nothing.
   */
  predicate Improves(c: Option<real>, incumbent: Option<real>)
  {
    c.Some? && (incumbent.None? || c.value < incumbent.value)
  }

  /** The cost at index `k` of `cs`, None for k = -1. */
  function CostOf(cs: seq<Option<real>>, k: int): Option<real>
    requires -1 <= k < |cs|
  {
    if k < 0 then None else cs[k]
  }

  /** The index the running strict-`<` comparison ends on, -1 if no candidate ever won. */
  function Pick(cs: seq<Option<real>>): (k: int)
    ensures -1 <= k < |cs|
  {
    if |cs| == 0 then -1
    else
      var k := Pick(cs[..|cs| - 1]);
      if Improves(cs[|cs| - 1], CostOf(cs, k)) then |cs| - 1 else k
  }

  /** `k` holds a defined cost no other candidate undercuts and no earlier candidate matches. */
  ghost predicate IsFirstLowest(cs: seq<Option<real>>, k: int)
  {
    && 0 <= k < |cs|
    && cs[k].Some?
    && (forall i :: 0 <= i < |cs| && cs[i].Some? ==> cs[k].value <= cs[i].value)
    && (forall i :: 0 <= i < k ==> cs[i].None? || cs[k].value < cs[i].value)
  }

  /**
   * The comparison keeps the first candidate of lowest cost: later ties never replace it, and
   * it keeps nothing only when no candidate has a cost.
   */
  lemma {:induction false} PickIsFirstLowest(cs: seq<Option<real>>)
    ensures Pick(cs) == -1 <==> forall i :: 0 <= i < |cs| ==> cs[i].None?
    ensures Pick(cs) != -1 ==> IsFirstLowest(cs, Pick(cs))
  {
    if |cs| > 0 {
      var init := cs[..|cs| - 1];
      PickIsFirstLowest(init);
      var k := Pick(init);
      assert forall i :: 0 <= i < |init| ==> init[i] == cs[i];
    }
  }

  // ---------------------------------------------------------------------------------------
  // One width's table.

  /** The costs of `glyphs` at column `p`, in group order. */
  function Candidates(sim: Similarity, block: Block, p: nat, glyphs: seq<GlyphTemplate>): (cs: seq<Option<real>>)
    requires IsBlock(block)
    requires forall i :: 0 <= i < |glyphs| ==> WellFormed(glyphs[i]) && glyphs[i].width > 0 && p + glyphs[i].width <= BlockWidth(block)
    ensures |cs| == |glyphs|
  {
    seq(|glyphs|, i requires 0 <= i < |glyphs| => Some(GlyphCost(sim, block, p, glyphs[i])))
  }

  /** The cost and glyph arrays of one width: `cost_table[w]` and `glyph_table[w]`. */
  datatype Table = Table(width: nat, costs: seq<Option<real>>, chosen: seq<GlyphTemplate>)

  /** Every glyph of the group is well formed and has the group's width. */
  ghost predicate IsGroup(group: Group)
  {
    forall i :: 0 <= i < |group.glyphs| ==>
      WellFormed(group.glyphs[i]) && group.glyphs[i].width == group.width
  }

  /** Every glyph is well formed, has positive width and fits in the band from column `p`. */
  ghost predicate FitAt(block: Block, glyphs: seq<GlyphTemplate>, p: nat)
    requires IsBlock(block)
  {
    forall i :: 0 <= i < |glyphs| ==> WellFormed(glyphs[i]) && glyphs[i].width > 0 && p + glyphs[i].width <= BlockWidth(block)
  }

  /**
   * What entry `p` holds once the first `n` glyphs have been compared: the cost and glyph of
   * the candidate the comparison kept, or inf and the blank if none was kept.
   */
  ghost function Winner(sim: Similarity, block: Block, glyphs: seq<GlyphTemplate>, p: nat, n: nat): (Option<real>, GlyphTemplate)
    requires IsBlock(block) && FitAt(block, glyphs, p) && n <= |glyphs|
  {
    var cs := Candidates(sim, block, p, glyphs);
    var k := Pick(cs[..n]);
    (CostOf(cs, k), if k < 0 then Filler() else glyphs[k])
  }

  /** `t` is the table the source builds for `group` on this band. */
  ghost predicate IsTableFor(t: Table, sim: Similarity, block: Block, group: Group)
    requires IsBlock(block) && IsGroup(group)
  {
    && t.width == group.width
    && 0 < group.width <= BlockWidth(block)
    && |t.costs| == BlockWidth(block) - group.width + 1
    && |t.chosen| == |t.costs|
    && forall p :: 0 <= p < |t.costs| ==>
         (t.costs[p], t.chosen[p]) == Winner(sim, block, group.glyphs, p, |group.glyphs|)
  }

  lemma PickStep(cs: seq<Option<real>>, n: nat)
    requires n < |cs|
    ensures Pick(cs[..n + 1]) == if Improves(cs[n], CostOf(cs, Pick(cs[..n]))) then n else Pick(cs[..n])
  {
    assert cs[..n + 1][..n] == cs[..n];
  }

  /** Comparing glyph `n` replaces the entry exactly when its cost is strictly lower. */
  lemma WinnerStep(sim: Similarity, block: Block, glyphs: seq<GlyphTemplate>, p: nat, n: nat)
    requires IsBlock(block) && FitAt(block, glyphs, p) && n < |glyphs|
    ensures var c := Some(GlyphCost(sim, block, p, glyphs[n]));
      Winner(sim, block, glyphs, p, n + 1)
        == if Improves(c, Winner(sim, block, glyphs, p, n).0) then (c, glyphs[n]) else Winner(sim, block, glyphs, p, n)
  {
    PickStep(Candidates(sim, block, p, glyphs), n);
  }

  /** The mask update at one column: glyph `n` replaces the entry when strictly cheaper. */
  method MergeAt(sim: Similarity, block: Block, glyphs: seq<GlyphTemplate>, n: nat, p: nat,
                 cost0: Option<real>, chosen0: GlyphTemplate)
    returns (cost: Option<real>, chosen: GlyphTemplate)
    requires IsBlock(block) && n < |glyphs| && FitAt(block, glyphs, p)
    requires (cost0, chosen0) == Winner(sim, block, glyphs, p, n)
    ensures (cost, chosen) == Winner(sim, block, glyphs, p, n + 1)
  {
    var g := glyphs[n];
    assert WellFormed(g) && g.width > 0 && p + g.width <= BlockWidth(block);
    var c := Some(GlyphCost(sim, block, p, g));
    WinnerStep(sim, block, glyphs, p, n);
    if Improves(c, cost0) {
      cost, chosen := c, g;
    } else {
      cost, chosen := cost0, chosen0;
    }
  }

  /** One pass of `mask = glyph_costs < costs` for glyph `n`, over every column. */
  method MergeGlyph(sim: Similarity, block: Block, glyphs: seq<GlyphTemplate>, n: nat,
                    costs0: seq<Option<real>>, chosen0: seq<GlyphTemplate>)
    returns (costs: seq<Option<real>>, chosen: seq<GlyphTemplate>)
    requires IsBlock(block) && n < |glyphs| && |chosen0| == |costs0|
    requires forall p :: 0 <= p < |costs0| ==> FitAt(block, glyphs, p)
    requires forall p :: 0 <= p < |costs0| ==> (costs0[p], chosen0[p]) == Winner(sim, block, glyphs, p, n)
    ensures |costs| == |costs0| && |chosen| == |costs0|
    ensures forall p :: 0 <= p < |costs| ==> (costs[p], chosen[p]) == Winner(sim, block, glyphs, p, n + 1)
  {
    costs, chosen := costs0, chosen0;
    var p := 0;
    while p < |costs0|
      invariant 0 <= p <= |costs0|
      invariant |costs| == |costs0| && |chosen| == |costs0|
      invariant forall q :: 0 <= q < p ==> (costs[q], chosen[q]) == Winner(sim, block, glyphs, q, n + 1)
      invariant forall q :: p <= q < |costs0| ==> costs[q] == costs0[q] && chosen[q] == chosen0[q]
    {
      var c, g := MergeAt(sim, block, glyphs, n, p, costs[p], chosen[p]);
      costs, chosen := costs[p := c], chosen[p := g];
      p := p + 1;
    }
  }

  /** The table of one width that fits in the band: glyphs outer, columns inner, as the source's mask loop. */
  method BuildTable(sim: Similarity, block: Block, group: Group) returns (t: Table)
    requires IsBlock(block) && IsGroup(group) && 0 < group.width <= BlockWidth(block)
    ensures IsTableFor(t, sim, block, group)
  {
    var w, glyphs := group.width, group.glyphs;
    var limit := BlockWidth(block) - w + 1;
    var costs: seq<Option<real>> := seq(limit, _ => None);
    var chosen: seq<GlyphTemplate> := seq(limit, _ => Filler());
    assert forall p :: 0 <= p < limit ==> FitAt(block, glyphs, p);
    var n := 0;
    while n < |glyphs|
      invariant 0 <= n <= |glyphs|
      invariant |costs| == limit && |chosen| == limit
      invariant forall p :: 0 <= p < limit ==> (costs[p], chosen[p]) == Winner(sim, block, glyphs, p, n)
    {
      costs, chosen := MergeGlyph(sim, block, glyphs, n, costs, chosen);
      n := n + 1;
    }
    t := Table(w, costs, chosen);
  }

  // ---------------------------------------------------------------------------------------
  // All widths.

  /** The groups whose width fits in a band `width` wide, in group order (`limit > 0`). */
  function Fitting(groups: seq<Group>, width: nat): (fs: seq<Group>)
    ensures forall i :: 0 <= i < |fs| ==> fs[i].width <= width
  {
    if |groups| == 0 then []
    else
      var fs := Fitting(groups[..|groups| - 1], width);
      if groups[|groups| - 1].width <= width then fs + [groups[|groups| - 1]] else fs
  }

  lemma FittingMembers(groups: seq<Group>, width: nat)
    ensures forall g :: g in Fitting(groups, width) <==> g in groups && g.width <= width
  {
    if |groups| > 0 {
      FittingMembers(groups[..|groups| - 1], width);
      assert groups == groups[..|groups| - 1] + [groups[|groups| - 1]];
    }
  }

  ghost predicate AreGroups(groups: seq<Group>)
  {
    forall i :: 0 <= i < |groups| ==> IsGroup(groups[i])
  }

  /** `tables` are the source's cost and glyph tables for `groups` on this band, in dict order. */
  ghost predicate AreTablesFor(tables: seq<Table>, sim: Similarity, block: Block, groups: seq<Group>)
    requires IsBlock(block) && AreGroups(groups)
  {
    var fs := Fitting(groups, BlockWidth(block));
    FittingMembers(groups, BlockWidth(block));
    && |tables| == |fs|
    && forall i :: 0 <= i < |tables| ==> IsTableFor(tables[i], sim, block, fs[i])
  }

  /**
   * What numpy raises for a width-0 group: the window view of width 0 is empty, and `reshape`
   * cannot infer its -1 axis when the other axes multiply to 0.
   */
  const ReshapeError: string := "cannot reshape array of size 0 into shape (-1,18,0)"

  /** Some group holds width-0 glyphs. */
  predicate HasZeroWidth(groups: seq<Group>)
  {
    exists i :: 0 <= i < |groups| && groups[i].width == 0
  }

  /**
   * _precompute_costs: the tables of the groups that fit, in dict order. A width-0 group always
   * fits (`limit` is the band width plus one), and reshaping its empty windows raises, so the
   * band fails exactly when such a group exists, whatever its place in the dict.
   */
  method PrecomputeCosts(sim: Similarity, block: Block, groups: seq<Group>) returns (r: Result<seq<Table>, string>)
    requires IsBlock(block) && AreGroups(groups)
    ensures r.Failure? <==> HasZeroWidth(groups)
    ensures r.Failure? ==> r.error == ReshapeError
    ensures r.Success? ==> AreTablesFor(r.value, sim, block, groups)
  {
    var width := BlockWidth(block);
    var tables := [];
    var i := 0;
    while i < |groups|
      invariant 0 <= i <= |groups|
      invariant AreGroups(groups[..i]) && !HasZeroWidth(groups[..i])
      invariant AreTablesFor(tables, sim, block, groups[..i])
    {
      var group := groups[i];
      assert groups[..i + 1] == groups[..i] + [group];
      assert groups[..i + 1][..i] == groups[..i];
      if group.width == 0 {
        return Failure(ReshapeError);
      }
      if group.width <= width {
        var t := BuildTable(sim, block, group);
        tables := tables + [t];
      }
      i := i + 1;
    }
    assert groups[..|groups|] == groups;
    r := Success(tables);
  }

  // ---------------------------------------------------------------------------------------
  // What the tables promise.

  /**
   * A table entry is the first glyph of lowest cost at that column; it stays at inf with the
   * blank only for a group without glyphs.
   */
  lemma TableEntry(t: Table, sim: Similarity, block: Block, group: Group, p: nat)
    requires IsBlock(block) && IsGroup(group) && IsTableFor(t, sim, block, group) && p < |t.costs|
    ensures var cs := Candidates(sim, block, p, group.glyphs);
      && (t.costs[p].None? <==> |group.glyphs| == 0)
      && (t.costs[p].None? ==> t.chosen[p] == Filler())
      && (t.costs[p].Some? ==> exists k :: IsFirstLowest(cs, k) && t.costs[p] == cs[k] && t.chosen[p] == group.glyphs[k])
  {
    var cs := Candidates(sim, block, p, group.glyphs);
    assert cs[..|cs|] == cs;
    PickIsFirstLowest(cs);
    if |cs| > 0 {
      assert cs[0].Some?;
    }
  }

  /**
   * A non-empty group fills every entry with one of its glyphs and a real cost: nothing is
   * left at inf with the blank.
   */
  lemma FullTable(t: Table, sim: Similarity, block: Block, group: Group, p: nat)
    requires IsBlock(block) && IsGroup(group) && IsTableFor(t, sim, block, group) && p < |t.costs|
    requires |group.glyphs| > 0
    ensures t.costs[p].Some? && t.chosen[p] in group.glyphs
  {
    var cs := Candidates(sim, block, p, group.glyphs);
    assert cs[..|cs|] == cs;
    PickIsFirstLowest(cs);
    assert cs[0].Some?;
  }

  /** The grouping of a well-formed dictionary meets the tables' requirements. */
  lemma GroupingIsGroups(groups: seq<Group>, gs: seq<GlyphTemplate>)
    requires IsGrouping(groups, gs)
    requires forall i :: 0 <= i < |gs| ==> WellFormed(gs[i])
    ensures AreGroups(groups)
  {
    forall j | 0 <= j < |groups| ensures IsGroup(groups[j]) {
      WithWidthMembers(gs, groups[j].width);
      forall i | 0 <= i < |groups[j].glyphs|
        ensures WellFormed(groups[j].glyphs[i]) && groups[j].glyphs[i].width == groups[j].width
      {
        assert groups[j].glyphs[i] in WithWidth(gs, groups[j].width);
      }
    }
  }
}
