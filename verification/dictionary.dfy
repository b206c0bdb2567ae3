/**
 * The dictionary text format (ChrTool.getChrListFrom18Line), read as a sequence of lines.
 * Each line is what `readline()` returns, line end included; reading past the last line
 * yields "".
 *
 *   count
 *   then per glyph: blank "\n" lines (skipped), a character line, a width line,
 *   and exactly CharHeight bitmap rows.
 */
module Dictionary {
  import opened Wrappers
  import opened Sums
  import opened Glyph

  /** The ValueErrors `int()` and `np.full` raise on a malformed dictionary. */
  datatype ParseError =
    | BadCount                 // the first line is not an integer
    | BadWidth(index: nat)     // glyph `index` has a width line that is not an integer
    | NegativeWidth(index: nat) // glyph `index` has a negative width

  /** Lines each glyph occupies after its leading blank lines: char, width and bitmap rows. */
  const LinesPerGlyph: nat := 2 + CharHeight

  function ReadLine(lines: seq<string>, i: nat): string
  {
    if i < |lines| then lines[i] else ""
  }

  /**
   * The ASCII characters Python's `str.strip()` removes: space, tab, line feed, vertical tab,
   * form feed, carriage return and the four information separators U+001C..U+001F.
   */
  predicate IsSpace(c: char)
  {
    c == ' ' || c == '\t' || c == '\n' || c == '\r' || c == '\U{B}' || c == '\U{C}'
      || ('\U{1C}' <= c <= '\U{1F}')
  }

  function LStrip(s: string): (r: string)
  {
    if |s| > 0 && IsSpace(s[0]) then LStrip(s[1..]) else s
  }

  function RStrip(s: string): (r: string)
  {
    if |s| > 0 && IsSpace(s[|s| - 1]) then RStrip(s[..|s| - 1]) else s
  }

  /** Python's `s.strip()`. */
  function Strip(s: string): string
  {
    LStrip(RStrip(s))
  }

  predicate IsDigit(c: char)
  {
    '0' <= c <= '9'
  }

  /** Decimal digits, with single underscores allowed between digits, as `int()` accepts. */
  predicate IsDigitString(s: string)
  {
    && |s| > 0
    && IsDigit(s[0])
    && (|s| == 1 || IsDigitString(s[1..]) || (s[1] == '_' && IsDigitString(s[2..])))
  }

  lemma {:induction false} DigitStringAppend(p: string, d: char)
    requires IsDigitString(p) && IsDigit(d)
    ensures IsDigitString(p + [d])
  {
    var s := p + [d];
    if |p| == 1 {
      assert s[1..] == [d];
    } else if IsDigitString(p[1..]) {
      DigitStringAppend(p[1..], d);
      assert s[1..] == p[1..] + [d];
    } else {
      DigitStringAppend(p[2..], d);
      assert s[2..] == p[2..] + [d];
    }
  }

  /** The number the digits of `s` spell, underscores skipped. */
  function DigitsValue(s: string): nat
  {
    if |s| == 0 then 0
    else if IsDigit(s[|s| - 1]) then 10 * DigitsValue(s[..|s| - 1]) + (s[|s| - 1] - '0') as nat
    else DigitsValue(s[..|s| - 1])
  }

  /** Python's `int(s)` on an already stripped string: an optional sign and a digit string. */
  function ParseInt(s: string): Option<int>
  {
    if |s| > 0 && s[0] == '-' && IsDigitString(s[1..]) then Some(0 - DigitsValue(s[1..]))
    else if |s| > 0 && s[0] == '+' && IsDigitString(s[1..]) then Some(DigitsValue(s[1..]))
    else if IsDigitString(s) then Some(DigitsValue(s))
    else None
  }

  /** The decimal text of `n`; `int()` reads it back as `n`. */
  function ShowNat(n: nat): (s: string)
    ensures IsDigitString(s) && '0' <= s[0] <= '9'
    ensures DigitsValue(s) == n
  {
    var d := ['0' + (n % 10) as char];
    if n < 10 then d
    else
      var p := ShowNat(n / 10);
      assert (p + d)[..|p + d| - 1] == p;
      DigitStringAppend(p, d[0]);
      p + d
  }

  /** The index of the first line at or after `pos` that is not exactly "\n". */
  function SkipBlankLines(lines: seq<string>, pos: nat): (r: nat)
    ensures pos <= r && ReadLine(lines, r) != "\n"
    decreases |lines| - pos
  {
    if pos < |lines| && lines[pos] == "\n" then SkipBlankLines(lines, pos + 1) else pos
  }

  /** Every line the skip passes over is exactly "\n". */
  lemma {:induction false} SkippedLinesAreBlank(lines: seq<string>, pos: nat)
    ensures forall i :: pos <= i < SkipBlankLines(lines, pos) ==> ReadLine(lines, i) == "\n"
    decreases |lines| - pos
  {
    if pos < |lines| && lines[pos] == "\n" {
      assert SkipBlankLines(lines, pos) == SkipBlankLines(lines, pos + 1);
      SkippedLinesAreBlank(lines, pos + 1);
    } else {
      assert SkipBlankLines(lines, pos) == pos;
    }
  }

  /** The glyph character of a character line (source lines 100-101). */
  function CharOf(line: string): char
  {
    var s := RStripNewlines(line);
    if |s| > 0 then s[0] else ' '
  }

  /**
   * The glyph character is the line's first character, or a space when the line holds
   * nothing but line-end characters.
   */
  lemma CharOfLine(line: string)
    ensures CharOf(line) == if forall i :: 0 <= i < |line| ==> IsNewline(line[i]) then ' ' else line[0]
  {
    var s := RStripNewlines(line);
    RStripNewlinesSpec(line);
    if |s| > 0 {
      assert s[0] == line[0] && s[|s| - 1] == line[|s| - 1];
    }
  }

  /** The CharHeight bitmap rows starting at line `start`, line ends stripped. */
  function BitmapRows(lines: seq<string>, start: nat): (rows: seq<string>)
    ensures |rows| == CharHeight
  {
    seq(CharHeight, k requires 0 <= k < CharHeight => RStripNewlines(ReadLine(lines, start + k)))
  }

  /** Reads glyph number `index` whose lines start at or after `pos`; returns the next position. */
  function ParseGlyph(lines: seq<string>, pos: nat, index: nat): (r: Result<(GlyphTemplate, nat), ParseError>)
    ensures r.Success? ==> WellFormed(r.value.0) && r.value.1 >= pos + LinesPerGlyph
    ensures r.Failure? ==> r.error == BadWidth(index) || r.error == NegativeWidth(index)
  {
    var c := SkipBlankLines(lines, pos);
    var ch := CharOf(ReadLine(lines, c));
    var width := ParseInt(Strip(ReadLine(lines, c + 1)));
    var rows := BitmapRows(lines, c + 2);
    if width.None? then Failure(BadWidth(index))
    else if width.value < 0 then Failure(NegativeWidth(index))
    else Success((FromDictionary(ch, width.value, rows), c + LinesPerGlyph))
  }

  /**
   * Which glyph entry reads how: BadWidth exactly when the width line after the character line
   * is not an integer, NegativeWidth exactly when it is negative, and otherwise the glyph of the
   * character line's character, that width and the next 18 lines, read from exactly one
   * glyph-length past the character line.
   */
  lemma ParseGlyphOutcome(lines: seq<string>, pos: nat, index: nat)
    ensures var r := ParseGlyph(lines, pos, index);
      var c := SkipBlankLines(lines, pos);
      var width := ParseInt(Strip(ReadLine(lines, c + 1)));
      && (r == Failure(BadWidth(index)) <==> width.None?)
      && (r == Failure(NegativeWidth(index)) <==> width.Some? && width.value < 0)
      && (r.Success? ==>
            && r.value.1 == c + LinesPerGlyph
            && r.value.0.ch == CharOf(ReadLine(lines, c))
            && r.value.0.width == width.value
            && r.value.0 == FromDictionary(CharOf(ReadLine(lines, c)), width.value, BitmapRows(lines, c + 2)))
  {
  }

  /** Reads `remaining` glyphs numbered from `index`, in file order. */
  function ParseGlyphs(lines: seq<string>, pos: nat, index: nat, remaining: nat)
    : (r: Result<(seq<GlyphTemplate>, nat), ParseError>)
    ensures r.Success? ==> |r.value.0| == remaining
    ensures r.Success? ==> forall i :: 0 <= i < |r.value.0| ==> WellFormed(r.value.0[i])
    ensures r.Success? ==> r.value.1 >= pos
    ensures r.Failure? ==> r.error != BadCount && index <= r.error.index < index + remaining
    decreases remaining
  {
    if remaining == 0 then Success(([], pos))
    else
      var first := ParseGlyph(lines, pos, index);
      if first.Failure? then Failure(first.error)
      else
        var rest := ParseGlyphs(lines, first.value.1, index + 1, remaining - 1);
        if rest.Failure? then Failure(rest.error)
        else Success(([first.value.0] + rest.value.0, rest.value.1))
  }

  /** The glyph count the first line declares, if it is an integer. */
  function DeclaredCount(lines: seq<string>): Option<int>
  {
    ParseInt(Strip(ReadLine(lines, 0)))
  }

  /**
   * getChrListFrom18Line: exactly `total` glyphs in file order (none for a negative total),
   * or the error that stopped the reading.
   */
  function Parse(lines: seq<string>): (r: Result<seq<GlyphTemplate>, ParseError>)
    ensures r == Failure(BadCount) <==> DeclaredCount(lines).None?
    ensures r.Success? ==> |r.value| == (if DeclaredCount(lines).value < 0 then 0 else DeclaredCount(lines).value)
    ensures r.Success? ==> forall i :: 0 <= i < |r.value| ==> WellFormed(r.value[i])
  {
    match DeclaredCount(lines)
    case None => Failure(BadCount)
    case Some(total) =>
      var count := if total < 0 then 0 else total;
      match ParseGlyphs(lines, 1, 0, count)
      case Failure(e) => Failure(e)
      case Success((gs, _)) => Success(gs)
  }

  // ---------------------------------------------------------------------------------------
  // Writing a dictionary, and reading it back.

  /** A bitmap row as dictionary text: '1' for ink, '0' for background. */
  function RowText(row: seq<Intensity>): (t: string)
    ensures |t| == |row|
  {
    seq(|row|, x requires 0 <= x < |row| => if row[x] == Ink then '1' else '0')
  }

  /** The lines a well-formed glyph is written as. */
  function EncodeGlyph(g: GlyphTemplate): (ls: seq<string>)
    requires WellFormed(g)
    ensures |ls| == LinesPerGlyph
  {
    [[g.ch] + "\n", ShowNat(g.width) + "\n"]
      + seq(CharHeight, y requires 0 <= y < CharHeight => RowText(g.matrix[y]) + "\n")
  }

  function EncodeAll(gs: seq<GlyphTemplate>): seq<string>
    requires forall i :: 0 <= i < |gs| ==> WellFormed(gs[i])
  {
    if |gs| == 0 then [] else EncodeGlyph(gs[0]) + EncodeAll(gs[1..])
  }

  /** A whole dictionary file for `gs`. */
  function Encode(gs: seq<GlyphTemplate>): seq<string>
    requires forall i :: 0 <= i < |gs| ==> WellFormed(gs[i])
  {
    [ShowNat(|gs|) + "\n"] + EncodeAll(gs)
  }

  lemma StripNumberLine(n: nat)
    ensures Strip(ShowNat(n) + "\n") == ShowNat(n)
    ensures ParseInt(ShowNat(n)) == Some(n)
  {
    var s := ShowNat(n);
    var t := s + "\n";
    assert t[..|t| - 1] == s;
    assert RStrip(t) == RStrip(s);
    assert RStrip(s) == s;
    assert LStrip(s) == s;
  }

  lemma RowTextRoundTrip(row: seq<Intensity>)
    ensures RStripNewlines(RowText(row) + "\n") == RowText(row)
    ensures forall x :: 0 <= x < |row| ==> PixelOf(RowText(row), x) == row[x]
  {
    var t := RowText(row) + "\n";
    assert t[..|t| - 1] == RowText(row);
  }

  lemma CharLine(c: char)
    requires !IsNewline(c)
    ensures CharOf([c] + "\n") == c
  {
    CharOfLine([c] + "\n");
    assert !IsNewline(([c] + "\n")[0]);
  }

  /** Rebuilding a glyph from its written rows gives the glyph back. */
  lemma {:induction false} FromRowTexts(g: GlyphTemplate)
    requires WellFormed(g)
    ensures FromDictionary(g.ch, g.width, seq(CharHeight, y requires 0 <= y < CharHeight => RowText(g.matrix[y]))) == g
  {
    var rows := seq(CharHeight, y requires 0 <= y < CharHeight => RowText(g.matrix[y]));
    var h := FromDictionary(g.ch, g.width, rows);
    forall y | 0 <= y < CharHeight
      ensures h.matrix[y] == g.matrix[y]
    {
      RowTextRoundTrip(g.matrix[y]);
      var t := RowText(g.matrix[y]);
      assert RStripNewlines(t) == t by {
        assert forall i :: 0 <= i < |t| ==> !IsNewline(t[i]);
      }
    }
  }

  lemma {:induction false} EncodedRows(lines: seq<string>, pos: nat, g: GlyphTemplate)
    requires WellFormed(g)
    requires pos + LinesPerGlyph <= |lines| && lines[pos..pos + LinesPerGlyph] == EncodeGlyph(g)
    ensures BitmapRows(lines, pos + 2) == seq(CharHeight, y requires 0 <= y < CharHeight => RowText(g.matrix[y]))
  {
    var enc := EncodeGlyph(g);
    forall k | 0 <= k < CharHeight
      ensures BitmapRows(lines, pos + 2)[k] == RowText(g.matrix[k])
    {
      assert lines[pos..pos + LinesPerGlyph][2 + k] == lines[pos + 2 + k];
      assert enc[2 + k] == RowText(g.matrix[k]) + "\n";
      assert ReadLine(lines, pos + 2 + k) == RowText(g.matrix[k]) + "\n";
      RowTextRoundTrip(g.matrix[k]);
    }
  }

  /** One encoded glyph, wherever it sits in the file, reads back as itself. */
  lemma {:induction false} ParseEncodedGlyph(lines: seq<string>, pos: nat, g: GlyphTemplate, index: nat)
    requires WellFormed(g) && !IsNewline(g.ch)
    requires pos + LinesPerGlyph <= |lines| && lines[pos..pos + LinesPerGlyph] == EncodeGlyph(g)
    ensures ParseGlyph(lines, pos, index) == Success((g, pos + LinesPerGlyph))
  {
    var enc := EncodeGlyph(g);
    forall k | 0 <= k < LinesPerGlyph
      ensures ReadLine(lines, pos + k) == enc[k]
    {
      assert lines[pos..pos + LinesPerGlyph][k] == lines[pos + k];
    }
    assert SkipBlankLines(lines, pos) == pos by {
      assert ReadLine(lines, pos) == [g.ch] + "\n";
    }
    assert CharOf(ReadLine(lines, pos)) == g.ch by {
      assert ReadLine(lines, pos) == [g.ch] + "\n";
      CharLine(g.ch);
    }
    assert ParseInt(Strip(ReadLine(lines, pos + 1))) == Some(g.width) by {
      assert ReadLine(lines, pos + 1) == ShowNat(g.width) + "\n";
      StripNumberLine(g.width);
    }
    EncodedRows(lines, pos, g);
    FromRowTexts(g);
  }

  /** ParseGlyphs with the glyph reader abstracted: `read` applied `count` times from `pos`. */
  function Repeat<T>(read: (nat, nat) -> Result<(T, nat), ParseError>, pos: nat, index: nat, count: nat)
    : Result<(seq<T>, nat), ParseError>
    decreases count
  {
    if count == 0 then Success(([], pos))
    else
      var first := read(pos, index);
      if first.Failure? then Failure(first.error)
      else
        var rest := Repeat(read, first.value.1, index + 1, count - 1);
        if rest.Failure? then Failure(rest.error)
        else Success(([first.value.0] + rest.value.0, rest.value.1))
  }

  function GlyphReader(lines: seq<string>): (nat, nat) -> Result<(GlyphTemplate, nat), ParseError>
  {
    (p: nat, i: nat) => ParseGlyph(lines, p, i)
  }

  lemma {:induction false} ParseGlyphsRepeat(lines: seq<string>, pos: nat, index: nat, count: nat)
    ensures ParseGlyphs(lines, pos, index, count) == Repeat(GlyphReader(lines), pos, index, count)
    decreases count
  {
    if count > 0 {
      var first := ParseGlyph(lines, pos, index);
      assert GlyphReader(lines)(pos, index) == first;
      if first.Success? {
        ParseGlyphsRepeat(lines, first.value.1, index + 1, count - 1);
      }
    }
  }

  /** Read number `k` of a run of reads `stride` lines apart. */
  function ReadAt<T>(read: (nat, nat) -> Result<(T, nat), ParseError>, pos: nat, index: nat, stride: nat, k: nat)
    : Result<(T, nat), ParseError>
  {
    read(pos + stride * k, index + k)
  }

  /** Reads of a fixed stride that each succeed with the next element make a successful repeat. */
  lemma {:induction false} RepeatReads<T>(read: (nat, nat) -> Result<(T, nat), ParseError>, pos: nat, index: nat,
                                          xs: seq<T>, stride: nat)
    requires forall k {:trigger ReadAt(read, pos, index, stride, k)} :: 0 <= k < |xs| ==>
      ReadAt(read, pos, index, stride, k) == Success((xs[k], pos + stride * k + stride))
    ensures Repeat(read, pos, index, |xs|) == Success((xs, pos + stride * |xs|))
    decreases |xs|
  {
    if |xs| > 0 {
      var tail := xs[1..];
      forall k {:trigger ReadAt(read, pos + stride, index + 1, stride, k)} | 0 <= k < |tail|
        ensures ReadAt(read, pos + stride, index + 1, stride, k) == Success((tail[k], pos + stride + stride * k + stride))
      {
        MulSucc(stride, k);
        assert ReadAt(read, pos, index, stride, k + 1) == Success((xs[k + 1], pos + stride * (k + 1) + stride));
      }
      RepeatReads(read, pos + stride, index + 1, tail, stride);
      assert ReadAt(read, pos, index, stride, 0) == Success((xs[0], pos + stride * 0 + stride));
      MulSucc(stride, |tail|);
      assert xs == [xs[0]] + tail;
    }
  }

  /** Lines `pos ..` of `lines` hold the encodings of `gs`, one after the other. */
  ghost predicate EncodedAt(lines: seq<string>, pos: nat, gs: seq<GlyphTemplate>)
    decreases |gs|
  {
    |gs| == 0 ||
      (&& WellFormed(gs[0])
       && pos + LinesPerGlyph <= |lines|
       && lines[pos..pos + LinesPerGlyph] == EncodeGlyph(gs[0])
       && EncodedAt(lines, pos + LinesPerGlyph, gs[1..]))
  }

  lemma {:induction false} EncodedAtNth(lines: seq<string>, pos: nat, gs: seq<GlyphTemplate>, k: nat)
    requires EncodedAt(lines, pos, gs) && k < |gs|
    ensures WellFormed(gs[k]) && pos + LinesPerGlyph * k + LinesPerGlyph <= |lines|
    ensures lines[pos + LinesPerGlyph * k..pos + LinesPerGlyph * k + LinesPerGlyph] == EncodeGlyph(gs[k])
    decreases k
  {
    if k > 0 {
      EncodedAtNth(lines, pos + LinesPerGlyph, gs[1..], k - 1);
      MulSucc(LinesPerGlyph, k - 1);
    }
  }

  /** Each encoded glyph reads back as itself, one glyph-length further on. */
  lemma {:induction false} EncodedReads(lines: seq<string>, pos: nat, gs: seq<GlyphTemplate>, index: nat)
    requires forall i :: 0 <= i < |gs| ==> !IsNewline(gs[i].ch)
    requires EncodedAt(lines, pos, gs)
    ensures forall k {:trigger ReadAt(GlyphReader(lines), pos, index, LinesPerGlyph, k)} :: 0 <= k < |gs| ==>
      ReadAt(GlyphReader(lines), pos, index, LinesPerGlyph, k) == Success((gs[k], pos + LinesPerGlyph * k + LinesPerGlyph))
  {
    forall k {:trigger ReadAt(GlyphReader(lines), pos, index, LinesPerGlyph, k)} | 0 <= k < |gs|
      ensures ReadAt(GlyphReader(lines), pos, index, LinesPerGlyph, k) == Success((gs[k], pos + LinesPerGlyph * k + LinesPerGlyph))
    {
      EncodedAtNth(lines, pos, gs, k);
      ParseEncodedGlyph(lines, pos + LinesPerGlyph * k, gs[k], index + k);
    }
  }

  /** Glyphs that each read back as themselves, one glyph-length apart, read back in order. */
  lemma {:induction false} ReadsBack(lines: seq<string>, pos: nat, gs: seq<GlyphTemplate>, index: nat)
    requires forall k {:trigger ReadAt(GlyphReader(lines), pos, index, LinesPerGlyph, k)} :: 0 <= k < |gs| ==>
      ReadAt(GlyphReader(lines), pos, index, LinesPerGlyph, k) == Success((gs[k], pos + LinesPerGlyph * k + LinesPerGlyph))
    ensures ParseGlyphs(lines, pos, index, |gs|) == Success((gs, pos + LinesPerGlyph * |gs|))
  {
    RepeatReads(GlyphReader(lines), pos, index, gs, LinesPerGlyph);
    ParseGlyphsRepeat(lines, pos, index, |gs|);
  }

  /** A file's glyph section is the glyphs' encodings one after the other. */
  lemma {:induction false} EncodeAllAt(prefix: seq<string>, gs: seq<GlyphTemplate>)
    requires forall i :: 0 <= i < |gs| ==> WellFormed(gs[i])
    ensures EncodedAt(prefix + EncodeAll(gs), |prefix|, gs)
    decreases |gs|
  {
    if |gs| > 0 {
      var head := prefix + EncodeGlyph(gs[0]);
      assert prefix + EncodeAll(gs) == head + EncodeAll(gs[1..]);
      EncodeAllAt(head, gs[1..]);
      assert (prefix + EncodeAll(gs))[|prefix|..|prefix| + LinesPerGlyph] == EncodeGlyph(gs[0]);
    }
  }

  /** In a written dictionary, glyph `k` reads back as itself from line 1 + LinesPerGlyph * k. */
  lemma {:induction false} EncodedFileReads(gs: seq<GlyphTemplate>)
    requires forall i :: 0 <= i < |gs| ==> WellFormed(gs[i]) && !IsNewline(gs[i].ch)
    ensures forall k {:trigger ReadAt(GlyphReader(Encode(gs)), 1, 0, LinesPerGlyph, k)} :: 0 <= k < |gs| ==>
      ReadAt(GlyphReader(Encode(gs)), 1, 0, LinesPerGlyph, k) == Success((gs[k], 1 + LinesPerGlyph * k + LinesPerGlyph))
  {
    EncodeAllAt([ShowNat(|gs|) + "\n"], gs);
    EncodedReads(Encode(gs), 1, gs, 0);
  }

  /** Writing a dictionary and reading it back gives the same glyphs, in the same order. */
  lemma {:induction false} ParseEncodeRoundTrip(gs: seq<GlyphTemplate>)
    requires forall i :: 0 <= i < |gs| ==> WellFormed(gs[i]) && !IsNewline(gs[i].ch)
    ensures Parse(Encode(gs)) == Success(gs)
  {
    var lines := Encode(gs);
    assert DeclaredCount(lines) == Some(|gs|) by {
      assert ReadLine(lines, 0) == ShowNat(|gs|) + "\n";
      StripNumberLine(|gs|);
    }
    assert ParseGlyphs(lines, 1, 0, |gs|) == Success((gs, 1 + LinesPerGlyph * |gs|)) by {
      EncodedFileReads(gs);
      ReadsBack(lines, 1, gs, 0);
    }
  }
}
