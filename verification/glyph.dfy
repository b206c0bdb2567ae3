/**
 * Glyph templates: one dictionary entry, a character with an 18-row bitmap of 0 (ink) and
 * 255 (background), and the statistics the matcher derives from its lower 16 rows.
 */
module Glyph {
  import opened Sums

  /** Height in pixels of every glyph and of every band of the image. */
  const CharHeight: nat := 18
  /** Top rows of a glyph or window that the matcher ignores. */
  const SkipRows: nat := 2
  /** Rows that take part in matching. */
  const BodyRows: nat := CharHeight - SkipRows

  /** A glyph pixel: 0 is ink, 255 is background. */
  type Intensity = v: int | v == 0 || v == 255

  const Ink: Intensity := 0
  const Background: Intensity := 255

  type Matrix = seq<seq<Intensity>>

  /**
   * A dictionary entry. The source also stores the mean, the mean-centred body and its norm;
   * here the first two are the functions Mean and Centered below, derived from the matrix.
   */
  datatype GlyphTemplate = GlyphTemplate(ch: char, width: nat, matrix: Matrix)

  /** `m` has CharHeight rows of `w` columns. */
  ghost predicate IsShape(m: Matrix, w: nat)
  {
    |m| == CharHeight && forall y :: 0 <= y < |m| ==> |m[y]| == w
  }

  ghost predicate WellFormed(g: GlyphTemplate)
  {
    IsShape(g.matrix, g.width)
  }

  predicate IsNewline(c: char)
  {
    c == '\r' || c == '\n'
  }

  /** Python's `s.rstrip("\r\n")`: drops every trailing carriage return and line feed. */
  function RStripNewlines(s: string): string
  {
    if |s| > 0 && IsNewline(s[|s| - 1]) then RStripNewlines(s[..|s| - 1]) else s
  }

  /** The stripped string is a prefix, what was dropped is all line ends, and none remains at the end. */
  lemma {:induction false} RStripNewlinesSpec(s: string)
    ensures RStripNewlines(s) <= s
    ensures forall i :: |RStripNewlines(s)| <= i < |s| ==> IsNewline(s[i])
    ensures |RStripNewlines(s)| == 0 || !IsNewline(RStripNewlines(s)[|RStripNewlines(s)| - 1])
    decreases |s|
  {
    if |s| > 0 && IsNewline(s[|s| - 1]) {
      RStripNewlinesSpec(s[..|s| - 1]);
    }
  }

  /** The pixel a stripped bitmap row gives column `x`: ink only for a '1' that is present. */
  function PixelOf(row: string, x: nat): Intensity
  {
    if x < |row| && row[x] == '1' then Ink else Background
  }

  /** GlyphTemplate.from_dictionary: the glyph for character `ch` drawn by the text `rows`. */
  function FromDictionary(ch: char, width: nat, rows: seq<string>): (g: GlyphTemplate)
    requires |rows| <= CharHeight
    ensures g.ch == ch && g.width == width && WellFormed(g)
  {
    var m := seq(CharHeight, y requires 0 <= y < CharHeight =>
               seq(width, x requires 0 <= x < width => if y < |rows| then PixelOf(RStripNewlines(rows[y]), x) else Background));
    GlyphTemplate(ch, width, m)
  }

  /**
   * The matrix from_dictionary builds is background everywhere except where a row has a '1'.
   * Short rows are padded with background and characters past the width are ignored; stripping
   * line ends changes nothing since they are never '1'.
   */
  lemma FromDictionaryPixels(ch: char, width: nat, rows: seq<string>)
    requires |rows| <= CharHeight
    ensures forall y, x :: 0 <= y < CharHeight && 0 <= x < width ==>
              (FromDictionary(ch, width, rows).matrix[y][x] == Ink <==>
                 y < |rows| && x < |rows[y]| && rows[y][x] == '1')
  {
    var g := FromDictionary(ch, width, rows);
    forall y, x | 0 <= y < CharHeight && 0 <= x < width
      ensures g.matrix[y][x] == Ink <==> y < |rows| && x < |rows[y]| && rows[y][x] == '1'
    {
      if y < |rows| {
        var r := RStripNewlines(rows[y]);
        RStripNewlinesSpec(rows[y]);
        if x < |r| {
          assert r[x] == rows[y][x];
        }
      }
    }
  }

  /** GlyphTemplate.blank: a space whose matrix is background everywhere. */
  function Blank(width: nat): (g: GlyphTemplate)
    ensures g.ch == ' ' && g.width == width && WellFormed(g)
    ensures forall y, x :: 0 <= y < CharHeight && 0 <= x < width ==> g.matrix[y][x] == Background
  {
    GlyphTemplate(' ', width, seq(CharHeight, _ => seq(width, _ => Background)))
  }

  /** The blank filler the row segmenter falls back on. */
  function Filler(): GlyphTemplate
  {
    Blank(1)
  }

  lemma BodyIndex(i: nat, w: nat)
    requires i < BodyRows * w
    ensures w > 0 && i / w < BodyRows && i % w < w
  {
  }

  /**
   * The lower BodyRows rows of columns `left .. left + w - 1` of `m`, scaled to 0..1 and
   * flattened row by row (the source's `matrix[2:, :] / 255` followed by `ravel`).
   */
  function Body(m: seq<seq<int>>, left: nat, w: nat): (b: seq<real>)
    requires |m| == CharHeight && forall y :: 0 <= y < |m| ==> left + w <= |m[y]|
    ensures |b| == BodyRows * w
  {
    seq(BodyRows * w, i requires 0 <= i < BodyRows * w =>
      BodyIndex(i, w);
      m[SkipRows + i / w][left + i % w] as real / 255.0)
  }

  /** The body of a glyph. */
  function GlyphBody(g: GlyphTemplate): (b: seq<real>)
    requires WellFormed(g)
    ensures |b| == BodyRows * g.width
    ensures IsBits(b)
  {
    var b := Body(g.matrix, 0, g.width);
    assert IsBits(b) by {
      forall i | 0 <= i < |b| ensures b[i] == 0.0 || b[i] == 1.0 {
        BodyIndex(i, g.width);
      }
    }
    b
  }

  /**
   * The glyph's mean body intensity. For width 0 the body is empty and the source's mean is
   * NaN; the model leaves it undefined there.
   */
  function Mean(g: GlyphTemplate): (m: real)
    requires WellFormed(g) && g.width > 0
    ensures 0.0 <= m <= 1.0
  {
    var b := GlyphBody(g);
    AverageInUnit(b);
    Average(b)
  }

  /** The mean-centred body vector of a glyph (empty for width 0). */
  function Centered(g: GlyphTemplate): (c: seq<real>)
    requires WellFormed(g)
    ensures |c| == BodyRows * g.width
  {
    var b := GlyphBody(g);
    if g.width == 0 then [] else seq(|b|, i requires 0 <= i < |b| => b[i] - Mean(g))
  }

  /** The mean is the fraction of background pixels in the lower 16 rows. */
  lemma MeanIsBackgroundFraction(g: GlyphTemplate)
    requires WellFormed(g) && g.width > 0
    ensures Mean(g) == Count(GlyphBody(g), 1.0) as real / (BodyRows * g.width) as real
  {
    SumOfBits(GlyphBody(g));
  }

  /** The centred vector sums to zero. */
  lemma CenteredSumsToZero(g: GlyphTemplate)
    requires WellFormed(g)
    ensures Sum(Centered(g)) == 0.0
  {
    var b := GlyphBody(g);
    if g.width > 0 {
      SumShifted(b, Mean(g));
      var n := |b| as real;
      assert Sum(b) == n * (Sum(b) / n);
    }
  }

  /** The blank filler is a width-1 space with mean 1 and an all-zero centred vector. */
  lemma BlankStatistics()
    ensures Filler().ch == ' ' && Filler().width == 1
    ensures Mean(Filler()) == 1.0
    ensures |Centered(Filler())| == BodyRows
    ensures forall i :: 0 <= i < BodyRows ==> Centered(Filler())[i] == 0.0
  {
    var b := GlyphBody(Filler());
    forall i | 0 <= i < |b| ensures b[i] == 1.0 {
      BodyIndex(i, 1);
    }
    SumConstant(b, 1.0);
  }
}
