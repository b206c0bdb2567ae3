/**
 * ChrTool.generate_text_lines: the image cut into 18-pixel bands, each band solved into
 * characters and the characters turned into one line of text: an ideographic space in front,
 * every double ASCII space folded into one ideographic space, then "l!" written as "|." and
 * "j!" as a full-width right brace.
 */
module Assembler {
  import opened Wrappers
  import opened Glyph
  import opened Grouping
  import opened CostTable
  import opened Segmenter

  /** U+3000, the ideographic (full-width) space. */
  const IdeographicSpace: char := '　'

  /** U+FF5D, the full-width right curly bracket. */
  const FullWidthRightBrace: char := '｝'

  /** `pat` occurs in `s` starting at index `i`. */
  predicate OccursAt(s: seq<char>, pat: seq<char>, i: nat)
  {
    i + |pat| <= |s| && s[i..i + |pat|] == pat
  }

  /**
   * Python's `str.replace(pat, rep)`: scanning left to right, every occurrence of `pat` that
   * does not overlap an earlier replaced one becomes `rep`.
   */
  function ReplaceAll(s: seq<char>, pat: seq<char>, rep: seq<char>): seq<char>
    requires |pat| > 0
    decreases |s|
  {
    if |s| < |pat| then s
    else if OccursAt(s, pat, 0) then rep + ReplaceAll(s[|pat|..], pat, rep)
    else [s[0]] + ReplaceAll(s[1..], pat, rep)
  }

  /** `a` directly followed by `b` somewhere in `s`. */
  predicate HasPair(s: seq<char>, a: char, b: char)
  {
    exists i :: 0 <= i < |s| - 1 && s[i] == a && s[i + 1] == b
  }

  /** One line of text from one band's characters. */
  function AssembleLine(chars: seq<char>): seq<char>
  {
    var text := [IdeographicSpace] + chars;
    var folded := ReplaceAll(text, "  ", [IdeographicSpace]);
    ReplaceAll(ReplaceAll(folded, "l!", "|."), "j!", [FullWidthRightBrace])
  }

  // ---------------------------------------------------------------------------------------
  // What the replacement does.

  /** Without an occurrence of `pat` the text is unchanged. */
  lemma {:induction false} ReplaceAbsent(s: seq<char>, pat: seq<char>, rep: seq<char>)
    requires |pat| > 0
    requires forall i: nat :: !OccursAt(s, pat, i)
    ensures ReplaceAll(s, pat, rep) == s
    decreases |s|
  {
    if |s| >= |pat| {
      assert !OccursAt(s, pat, 0);
      var t := s[1..];
      forall i: nat ensures !OccursAt(t, pat, i) {
        if i + |pat| <= |t| {
          assert t[i..i + |pat|] == s[i + 1..i + 1 + |pat|];
          assert !OccursAt(s, pat, i + 1);
        }
      }
      ReplaceAbsent(t, pat, rep);
    }
  }

  /** The first character of the result: the text's own, or the replacement's. */
  lemma ReplaceHead(s: seq<char>, pat: seq<char>, rep: seq<char>)
    requires |pat| > 0 && |rep| > 0 && |s| > 0
    ensures |ReplaceAll(s, pat, rep)| > 0
    ensures ReplaceAll(s, pat, rep)[0] == s[0] || ReplaceAll(s, pat, rep)[0] == rep[0]
    ensures s[0] != pat[0] ==> ReplaceAll(s, pat, rep)[0] == s[0]
  {
  }

  /**
   * A replacement that holds neither `a` nor `b` creates no new `a`-`b` pair: every pair in the
   * result was a pair in the text.
   */
  lemma {:induction false} ReplaceKeepsPairsOut(s: seq<char>, pat: seq<char>, rep: seq<char>, a: char, b: char)
    requires |pat| > 0 && |rep| > 0 && a !in rep && b !in rep
    requires !HasPair(s, a, b)
    ensures !HasPair(ReplaceAll(s, pat, rep), a, b)
    decreases |s|
  {
    var r := ReplaceAll(s, pat, rep);
    if |s| >= |pat| {
      if OccursAt(s, pat, 0) {
        var t := s[|pat|..];
        assert !HasPair(t, a, b) by {
          forall i | 0 <= i < |t| - 1 ensures !(t[i] == a && t[i + 1] == b) {
            assert t[i] == s[i + |pat|] && t[i + 1] == s[i + 1 + |pat|];
          }
        }
        ReplaceKeepsPairsOut(t, pat, rep, a, b);
        PairAfterPrefix(rep, ReplaceAll(t, pat, rep), a, b);
      } else {
        var t := s[1..];
        assert !HasPair(t, a, b) by {
          forall i | 0 <= i < |t| - 1 ensures !(t[i] == a && t[i + 1] == b) {
            assert t[i] == s[i + 1] && t[i + 1] == s[i + 2];
          }
        }
        ReplaceKeepsPairsOut(t, pat, rep, a, b);
        var rt := ReplaceAll(t, pat, rep);
        if |t| > 0 {
          ReplaceHead(t, pat, rep);
          assert !(s[0] == a && rt[0] == b) by {
            if s[0] == a && rt[0] == s[1] {
              assert !(s[0] == a && s[1] == b);
            }
          }
        }
        PairAfterPrefix([s[0]], rt, a, b);
      }
    }
  }

  /**
   * Replacing `a` then `b` by a text holding neither leaves no `a`-`b` pair: each one found is
   * replaced, and the replacement cannot end or start one.
   */
  lemma {:induction false} ReplaceRemovesPair(s: seq<char>, a: char, b: char, rep: seq<char>)
    requires |rep| > 0 && a !in rep && b !in rep
    ensures !HasPair(ReplaceAll(s, [a, b], rep), a, b)
    decreases |s|
  {
    var pat := [a, b];
    if |s| >= 2 {
      if OccursAt(s, pat, 0) {
        var t := s[2..];
        ReplaceRemovesPair(t, a, b, rep);
        PairAfterPrefix(rep, ReplaceAll(t, pat, rep), a, b);
      } else {
        var t := s[1..];
        ReplaceRemovesPair(t, a, b, rep);
        var rt := ReplaceAll(t, pat, rep);
        ReplaceHead(t, pat, rep);
        assert !(s[0] == a && rt[0] == b) by {
          if s[0] == a && rt[0] == s[1] {
            assert s[..2] == [s[0], s[1]];
          }
        }
        PairAfterPrefix([s[0]], rt, a, b);
      }
    }
  }

  /** A pair in `p + q` lies in `p`, across the join, or in `q`. */
  lemma PairAfterPrefix(p: seq<char>, q: seq<char>, a: char, b: char)
    requires |p| > 0 && !HasPair(p, a, b) && !HasPair(q, a, b)
    requires p[|p| - 1] != a || |q| == 0 || q[0] != b
    ensures !HasPair(p + q, a, b)
  {
    var s := p + q;
    forall i | 0 <= i < |s| - 1 ensures !(s[i] == a && s[i + 1] == b) {
      if i < |p| - 1 {
        assert s[i] == p[i] && s[i + 1] == p[i + 1];
      } else if i == |p| - 1 {
        assert s[i] == p[|p| - 1] && s[i + 1] == q[0];
      } else {
        assert s[i] == q[i - |p|] && s[i + 1] == q[i - |p| + 1];
      }
    }
  }

  /**
   * Every assembled line starts with the ideographic space and holds no double ASCII space,
   * no "l!" and no "j!".
   */
  lemma AssembledLine(chars: seq<char>)
    ensures var line := AssembleLine(chars);
      && |line| > 0 && line[0] == IdeographicSpace
      && !HasPair(line, ' ', ' ')
      && !HasPair(line, 'l', '!')
      && !HasPair(line, 'j', '!')
  {
    var text := [IdeographicSpace] + chars;
    var folded := ReplaceAll(text, "  ", [IdeographicSpace]);
    var bars := ReplaceAll(folded, "l!", "|.");
    var line := ReplaceAll(bars, "j!", [FullWidthRightBrace]);
    ReplaceHead(text, "  ", [IdeographicSpace]);
    ReplaceHead(folded, "l!", "|.");
    ReplaceHead(bars, "j!", [FullWidthRightBrace]);
    ReplaceRemovesPair(text, ' ', ' ', [IdeographicSpace]);
    ReplaceKeepsPairsOut(folded, "l!", "|.", ' ', ' ');
    ReplaceKeepsPairsOut(bars, "j!", [FullWidthRightBrace], ' ', ' ');
    ReplaceRemovesPair(folded, 'l', '!', "|.");
    ReplaceKeepsPairsOut(bars, "j!", [FullWidthRightBrace], 'l', '!');
    ReplaceRemovesPair(bars, 'j', '!', [FullWidthRightBrace]);
  }

  // ---------------------------------------------------------------------------------------
  // The whole image.

  /** A grayscale image: rows of equal width. */
  ghost predicate IsImage(img: seq<seq<Pixel>>)
  {
    forall y :: 0 <= y < |img| ==> |img[y]| == |img[0]|
  }

  /** Band `i`: image rows 18 i .. 18 i + 17, for each complete band (`img_h // 18` of them). */
  function Band(img: seq<seq<Pixel>>, i: nat): (block: Block)
    requires IsImage(img) && i < |img| / CharHeight
    ensures IsBlock(block)
  {
    assert (i + 1) * CharHeight <= |img|;
    img[i * CharHeight..(i + 1) * CharHeight]
  }

  /** `chars` is what _solve_row returns for `block`: the characters of its cheapest tiling. */
  ghost predicate IsRowText(sim: Similarity, block: Block, groups: seq<Group>, chars: seq<char>)
    requires IsBlock(block) && AreGroups(groups)
  {
    exists tables :: AreTablesFor(tables, sim, block, groups) && Shaped(tables)
      && chars == CharsFrom(tables, BlockWidth(block), 0)
  }

  /** `line` is the assembled text of band `i`. */
  ghost predicate IsLineOf(sim: Similarity, img: seq<seq<Pixel>>, groups: seq<Group>, i: nat, line: seq<char>)
    requires IsImage(img) && AreGroups(groups) && i < |img| / CharHeight
  {
    exists chars :: IsRowText(sim, Band(img, i), groups, chars) && line == AssembleLine(chars)
  }

  /**
   * generate_text_lines: one line per complete band; leftover rows at the bottom are dropped.
   * The first band raises when a group has width 0, so the whole call fails exactly then,
   * provided the image has a complete band at all.
   */
  method GenerateTextLines(sim: Similarity, img: seq<seq<Pixel>>, groups: seq<Group>) returns (r: Result<seq<seq<char>>, string>)
    requires IsImage(img) && AreGroups(groups)
    ensures r.Failure? <==> |img| >= CharHeight && HasZeroWidth(groups)
    ensures r.Failure? ==> r.error == ReshapeError
    ensures r.Success? ==> |r.value| == |img| / CharHeight
    ensures r.Success? ==> forall i :: 0 <= i < |r.value| ==> IsLineOf(sim, img, groups, i, r.value[i])
  {
    var count := |img| / CharHeight;
    var lines := [];
    var i := 0;
    while i < count
      invariant 0 <= i <= count && |lines| == i
      invariant i > 0 ==> !HasZeroWidth(groups)
      invariant forall j :: 0 <= j < i ==> IsLineOf(sim, img, groups, j, lines[j])
    {
      var block := Band(img, i);
      var row, tables := SolveRow(sim, block, groups);
      if row.Failure? {
        return Failure(row.error);
      }
      var line := AssembleLine(row.value);
      assert IsLineOf(sim, img, groups, i, line) by {
        assert IsRowText(sim, block, groups, row.value);
      }
      lines := lines + [line];
      i := i + 1;
    }
    assert count > 0 ==> |img| >= CharHeight;
    assert |img| >= CharHeight ==> count > 0;
    r := Success(lines);
  }
}
