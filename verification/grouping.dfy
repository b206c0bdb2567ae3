/**
 * ChrTool._group_by_width: the dictionary split into one group per glyph width. The source
 * builds a Python dict, whose keys keep their insertion order; here that dict is a sequence
 * of (width, glyphs) pairs in the same order.
 */
module Grouping {
  import opened Glyph

  datatype Group = Group(width: nat, glyphs: seq<GlyphTemplate>)

  /** The glyphs of width `w`, in dictionary order. */
  function WithWidth(gs: seq<GlyphTemplate>, w: nat): seq<GlyphTemplate>
  {
    if |gs| == 0 then []
    else WithWidth(gs[..|gs| - 1], w) + (if gs[|gs| - 1].width == w then [gs[|gs| - 1]] else [])
  }

  /** The distinct widths of `gs`, each once, in order of first appearance. */
  function Widths(gs: seq<GlyphTemplate>): seq<nat>
  {
    if |gs| == 0 then []
    else
      var ws := Widths(gs[..|gs| - 1]);
      if gs[|gs| - 1].width in ws then ws else ws + [gs[|gs| - 1].width]
  }

  /** `groups` is the grouping of `gs`: one group per distinct width, in first-appearance order. */
  ghost predicate IsGrouping(groups: seq<Group>, gs: seq<GlyphTemplate>)
  {
    && |groups| == |Widths(gs)|
    && forall j :: 0 <= j < |groups| ==>
         groups[j].width == Widths(gs)[j] && groups[j].glyphs == WithWidth(gs, Widths(gs)[j])
  }

  /** The group holding width `w`, or -1: the dict lookup of `setdefault`. */
  method FindGroup(groups: seq<Group>, w: nat) returns (k: int)
    ensures -1 <= k < |groups|
    ensures k == -1 <==> forall j :: 0 <= j < |groups| ==> groups[j].width != w
    ensures k >= 0 ==> groups[k].width == w
  {
    k := 0;
    while k < |groups|
      invariant 0 <= k <= |groups|
      invariant forall j :: 0 <= j < k ==> groups[j].width != w
    {
      if groups[k].width == w {
        return;
      }
      k := k + 1;
    }
    k := -1;
  }

  /** Adding glyph `g` to the end of `p` changes only its own width's group, or adds one. */
  lemma GroupingStep(p: seq<GlyphTemplate>, g: GlyphTemplate)
    ensures (p + [g])[..|p|] == p
    ensures Widths(p + [g]) == if g.width in Widths(p) then Widths(p) else Widths(p) + [g.width]
    ensures forall w :: WithWidth(p + [g], w) == WithWidth(p, w) + (if g.width == w then [g] else [])
  {
    assert (p + [g])[..|p|] == p;
  }

  /** _group_by_width. */
  method GroupByWidth(gs: seq<GlyphTemplate>) returns (groups: seq<Group>)
    ensures IsGrouping(groups, gs)
  {
    groups := [];
    var i := 0;
    while i < |gs|
      invariant 0 <= i <= |gs|
      invariant IsGrouping(groups, gs[..i])
    {
      var g := gs[i];
      var p := gs[..i];
      assert gs[..i + 1] == p + [g];
      GroupingStep(p, g);
      WidthsDistinct(p);
      var k := FindGroup(groups, g.width);
      if k >= 0 {
        assert g.width in Widths(p) by {
          assert Widths(p)[k] == g.width;
        }
        groups := groups[k := Group(g.width, groups[k].glyphs + [g])];
      } else {
        assert g.width !in Widths(p) by {
          forall j | 0 <= j < |Widths(p)| ensures Widths(p)[j] != g.width {
            assert groups[j].width != g.width;
          }
        }
        WithWidthAbsent(p, g.width);
        groups := groups + [Group(g.width, [g])];
      }
      i := i + 1;
    }
    assert gs[..|gs|] == gs;
  }

  // ---------------------------------------------------------------------------------------
  // What the grouping promises.

  /** Membership in a width group: exactly the glyphs of that width. */
  lemma {:induction false} WithWidthMembers(gs: seq<GlyphTemplate>, w: nat)
    ensures forall g :: g in WithWidth(gs, w) <==> g in gs && g.width == w
  {
    if |gs| > 0 {
      var p := gs[..|gs| - 1];
      WithWidthMembers(p, w);
      assert gs == p + [gs[|gs| - 1]];
    }
  }

  /** A width is a key exactly when some glyph has it. */
  lemma {:induction false} WidthsComplete(gs: seq<GlyphTemplate>)
    ensures forall w :: w in Widths(gs) <==> exists i :: 0 <= i < |gs| && gs[i].width == w
  {
    if |gs| > 0 {
      var p := gs[..|gs| - 1];
      WidthsComplete(p);
      forall w | w in Widths(gs) ensures exists i :: 0 <= i < |gs| && gs[i].width == w {
        if w in Widths(p) {
          var i :| 0 <= i < |p| && p[i].width == w;
          assert gs[i] == p[i];
        } else {
          assert gs[|gs| - 1].width == w;
        }
      }
      forall w | exists i :: 0 <= i < |gs| && gs[i].width == w ensures w in Widths(gs) {
        var i :| 0 <= i < |gs| && gs[i].width == w;
        if i < |gs| - 1 {
          assert p[i] == gs[i];
        }
      }
    }
  }

  /** No width is a key twice. */
  lemma {:induction false} WidthsDistinct(gs: seq<GlyphTemplate>)
    ensures forall i, j :: 0 <= i < j < |Widths(gs)| ==> Widths(gs)[i] != Widths(gs)[j]
  {
    if |gs| > 0 {
      WidthsDistinct(gs[..|gs| - 1]);
    }
  }

  /** A width no glyph has selects nothing. */
  lemma {:induction false} WithWidthAbsent(gs: seq<GlyphTemplate>, w: nat)
    requires w !in Widths(gs)
    ensures WithWidth(gs, w) == []
  {
    if |gs| > 0 {
      var p := gs[..|gs| - 1];
      assert w !in Widths(p) && gs[|gs| - 1].width != w;
      WithWidthAbsent(p, w);
    }
  }

  /** Every group is non-empty. */
  lemma GroupsNonEmpty(gs: seq<GlyphTemplate>, w: nat)
    requires w in Widths(gs)
    ensures |WithWidth(gs, w)| > 0
  {
    WidthsComplete(gs);
    var i :| 0 <= i < |gs| && gs[i].width == w;
    WithWidthMembers(gs, w);
    assert gs[i] in WithWidth(gs, w);
  }

  /** The index of the first glyph of width `w`, or |gs| when there is none. */
  function FirstIndex(gs: seq<GlyphTemplate>, w: nat): (i: nat)
    ensures i <= |gs|
    ensures i < |gs| ==> gs[i].width == w
    ensures forall j :: 0 <= j < i ==> gs[j].width != w
  {
    if |gs| == 0 then 0
    else if gs[0].width == w then 0
    else 1 + FirstIndex(gs[1..], w)
  }

  /** Keys appear in the order their widths first occur in the dictionary. */
  lemma {:induction false} WidthsInFirstAppearanceOrder(gs: seq<GlyphTemplate>, a: nat, b: nat)
    requires a < b < |Widths(gs)|
    ensures FirstIndex(gs, Widths(gs)[a]) < FirstIndex(gs, Widths(gs)[b]) < |gs|
  {
    var p := gs[..|gs| - 1];
    var last := gs[|gs| - 1];
    assert gs == p + [last];
    WidthsComplete(p);
    WidthsComplete(gs);
    var wa, wb := Widths(gs)[a], Widths(gs)[b];
    if b < |Widths(p)| {
      WidthsInFirstAppearanceOrder(p, a, b);
      FirstIndexPrefix(p, last, wa);
      FirstIndexPrefix(p, last, wb);
    } else {
      // `wb` is the width `last` introduced, so no earlier glyph has it.
      assert wb == last.width && wb !in Widths(p);
      assert wa in Widths(p);
      FirstIndexPrefix(p, last, wa);
      forall j | 0 <= j < |p| ensures gs[j].width != wb {
        assert gs[j] == p[j];
      }
      assert FirstIndex(p, wa) < |p| by {
        var i :| 0 <= i < |p| && p[i].width == wa;
      }
    }
  }

  /** A width already present in `p` is found first at the same place in `p + [g]`. */
  lemma FirstIndexPrefix(p: seq<GlyphTemplate>, g: GlyphTemplate, w: nat)
    requires exists i :: 0 <= i < |p| && p[i].width == w
    ensures FirstIndex(p + [g], w) == FirstIndex(p, w) < |p|
  {
    var q := p + [g];
    var i :| 0 <= i < |p| && p[i].width == w;
    assert q[i] == p[i];
    var f, h := FirstIndex(p, w), FirstIndex(q, w);
    assert f <= i;
    assert q[f] == p[f];
    assert p[h] == q[h] by {
      assert h <= f;
    }
  }

  /** Sum of the group sizes for the widths `ws`. */
  function GroupSizes(gs: seq<GlyphTemplate>, ws: seq<nat>): nat
  {
    if |ws| == 0 then 0 else GroupSizes(gs, ws[..|ws| - 1]) + |WithWidth(gs, ws[|ws| - 1])|
  }

  /** Adding a glyph grows the sizes by the number of times its width is listed. */
  lemma {:induction false} GroupSizesStep(p: seq<GlyphTemplate>, g: GlyphTemplate, ws: seq<nat>)
    ensures GroupSizes(p + [g], ws) == GroupSizes(p, ws) + CountIn(ws, g.width)
  {
    GroupingStep(p, g);
    if |ws| > 0 {
      GroupSizesStep(p, g, ws[..|ws| - 1]);
      assert ws == ws[..|ws| - 1] + [ws[|ws| - 1]];
    }
  }

  function CountIn(ws: seq<nat>, w: nat): nat
  {
    if |ws| == 0 then 0 else CountIn(ws[..|ws| - 1], w) + (if ws[|ws| - 1] == w then 1 else 0)
  }

  /** The groups partition the dictionary: their sizes add up to the number of glyphs. */
  lemma {:induction false} GroupsPartition(gs: seq<GlyphTemplate>)
    ensures GroupSizes(gs, Widths(gs)) == |gs|
  {
    if |gs| > 0 {
      var p := gs[..|gs| - 1];
      var g := gs[|gs| - 1];
      assert gs == p + [g];
      GroupsPartition(p);
      WidthsDistinct(p);
      GroupSizesStep(p, g, Widths(p));
      if g.width in Widths(p) {
        CountDistinctOnce(Widths(p), g.width);
      } else {
        CountAbsent(Widths(p), g.width);
        WithWidthAbsent(p, g.width);
        var ws := Widths(p) + [g.width];
        assert Widths(gs) == ws;
        assert ws[..|ws| - 1] == Widths(p);
      }
    }
  }

  lemma {:induction false} CountDistinctOnce(ws: seq<nat>, w: nat)
    requires w in ws
    requires forall i, j :: 0 <= i < j < |ws| ==> ws[i] != ws[j]
    ensures CountIn(ws, w) == 1
  {
    var init := ws[..|ws| - 1];
    if ws[|ws| - 1] == w {
      assert w !in init by {
        forall i | 0 <= i < |init| ensures init[i] != w {
          assert ws[i] != ws[|ws| - 1];
        }
      }
      CountAbsent(init, w);
    } else {
      assert w in init by {
        var i :| 0 <= i < |ws| && ws[i] == w;
        assert init[i] == w;
      }
      CountDistinctOnce(init, w);
    }
  }

  lemma {:induction false} CountAbsent(ws: seq<nat>, w: nat)
    requires w !in ws
    ensures CountIn(ws, w) == 0
  {
    if |ws| > 0 {
      CountAbsent(ws[..|ws| - 1], w);
    }
  }
}
