/** The usage bar: `width` character cells, each lit in eighths, so the bar
    resolves `width * 8` steps. */
module ProgressBar {
  import opened Theme

  /** `int(progress / total * (width * 8))`: how many eighths of the bar are
      lit, computed exactly and rounded down. */
  function FilledEighths(progress: real, total: real, width: nat): (filled: int)
    requires 0.0 < total && 0.0 <= progress <= total
    ensures 0 <= filled <= 8 * width
  {
    var fraction := progress / total;
    assert fraction * total == progress;
    assert 0.0 <= fraction <= 1.0;
    var eighths := (width * 8) as real;
    assert 0.0 <= fraction * eighths <= eighths;
    (fraction * eighths).Floor
  }

  /** `c * n` in Python: `n` copies of `c`, none when `n` is not positive. */
  function Repeat(c: char, n: int): (r: string)
    ensures |r| == if n <= 0 then 0 else n
    ensures forall i :: 0 <= i < |r| ==> r[i] == c
  {
    if n <= 0 then [] else [c] + Repeat(c, n - 1)
  }

  /** What cell `i` shows when `filled` eighths are lit: empty before the
      fill reaches it, full once the fill covers it, otherwise the glyph
      for the eighths that fall inside it. */
  function CellGlyph(filled: int, i: int): (c: char)
    ensures c == EmptyCell <==> filled <= 8 * i
    ensures c == FullBlock <==> filled >= 8 * i + 8
  {
    var inCell := filled - 8 * i;
    if inCell <= 0 then EmptyCell
    else if inCell >= 8 then FullBlock
    else Blocks[inCell - 1]
  }

  /** The bar with `filled` eighths lit, cell by cell. */
  function Cells(filled: int, width: nat): (bar: string)
    ensures |bar| == width
  {
    seq(width, i => CellGlyph(filled, i))
  }

  /** The bar `get_progress_bar(progress, total, width)` draws. */
  function Bar(progress: real, total: real, width: nat): (bar: string)
    requires 0.0 < total && 0.0 <= progress <= total
    ensures |bar| == width
  {
    Cells(FilledEighths(progress, total, width), width)
  }

  /** `get_progress_bar`: full blocks for the whole cells, at most one
      partial glyph for the remainder, then empty cells up to `width`. */
  method GetProgressBar(progress: real, total: real, width: nat) returns (bar: string)
    requires 0.0 < total && 0.0 <= progress <= total
    ensures bar == Bar(progress, total, width)
    ensures |bar| == width
  {
    var filledBlocks := FilledEighths(progress, total, width);
    var fullChars := filledBlocks / 8;
    var remainder := filledBlocks % 8;
    var empty := width - fullChars;

    bar := Repeat(FullBlock, fullChars);
    if remainder > 0 {
      bar := bar + [Blocks[remainder - 1]];
      empty := empty - 1;
    }
    bar := bar + Repeat(EmptyCell, empty);

    assert |bar| == width;
    forall i | 0 <= i < width ensures bar[i] == CellGlyph(filledBlocks, i) {
      if i < fullChars {
        assert filledBlocks - 8 * i >= 8;
      } else if i == fullChars && remainder > 0 {
        assert filledBlocks - 8 * i == remainder;
      } else {
        assert filledBlocks - 8 * i <= 0;
      }
    }
  }

  /** How many eighths a glyph shows. */
  function GlyphLevel(c: char): (level: nat)
    ensures level <= 8
  {
    if c == Blocks[0] then 1
    else if c == Blocks[1] then 2
    else if c == Blocks[2] then 3
    else if c == Blocks[3] then 4
    else if c == Blocks[4] then 5
    else if c == Blocks[5] then 6
    else if c == Blocks[6] then 7
    else if c == Blocks[7] then 8
    else 0
  }

  /** A partial glyph: lit, but less than full. */
  predicate IsPartial(c: char) {
    0 < GlyphLevel(c) < 8
  }

  /** Total eighths a bar shows, read back from its glyphs. */
  function LitEighths(bar: string): nat {
    if bar == [] then 0 else LitEighths(bar[..|bar| - 1]) + GlyphLevel(bar[|bar| - 1])
  }

  /** A cell shows exactly the eighths of the fill that fall inside it. */
  lemma CellLevel(filled: int, i: int)
    ensures GlyphLevel(CellGlyph(filled, i)) ==
      (if filled - 8 * i <= 0 then 0 else if filled - 8 * i >= 8 then 8 else filled - 8 * i)
  {
  }

  /** The bar is lit by exactly as many eighths as were asked for, capped at
      its capacity. */
  lemma {:induction false} CellsShowFill(filled: nat, width: nat)
    ensures LitEighths(Cells(filled, width)) == if filled <= 8 * width then filled else 8 * width
  {
    if width > 0 {
      var bar := Cells(filled, width);
      assert bar[..width - 1] == Cells(filled, width - 1);
      CellsShowFill(filled, width - 1);
      CellLevel(filled, width - 1);
    }
  }

  /** Reading the drawn bar back gives the lit eighths it was drawn from. */
  lemma BarShowsFill(progress: real, total: real, width: nat)
    requires 0.0 < total && 0.0 <= progress <= total
    ensures LitEighths(Bar(progress, total, width)) == FilledEighths(progress, total, width)
  {
    CellsShowFill(FilledEighths(progress, total, width), width);
  }

  /** A bar at zero is all empty cells. */
  lemma BarAtZero(total: real, width: nat)
    requires 0.0 < total
    ensures Bar(0.0, total, width) == Repeat(EmptyCell, width)
  {
    assert FilledEighths(0.0, total, width) == 0;
  }

  /** A bar at its total is all full blocks. */
  lemma BarAtTotal(total: real, width: nat)
    requires 0.0 < total
    ensures Bar(total, total, width) == Repeat(FullBlock, width)
  {
    assert total / total == 1.0;
    assert FilledEighths(total, total, width) == 8 * width;
  }

  /** At most one cell is partial: the one where the fill ends, when the
      fill stops inside a cell, and it shows the glyph for the remainder. */
  lemma AtMostOnePartial(filled: nat, width: nat)
    requires filled <= 8 * width
    ensures forall i :: 0 <= i < width ==>
      (IsPartial(Cells(filled, width)[i]) <==> filled % 8 != 0 && i == filled / 8)
    ensures filled % 8 != 0 ==> filled / 8 < width && Cells(filled, width)[filled / 8] == Blocks[filled % 8 - 1]
  {
    forall i | 0 <= i < width
      ensures IsPartial(Cells(filled, width)[i]) <==> filled % 8 != 0 && i == filled / 8
    {
      CellLevel(filled, i);
    }
  }

  /** More progress never dims a cell. */
  lemma BarMonotone(p: real, q: real, total: real, width: nat)
    requires 0.0 < total && 0.0 <= p <= q <= total
    ensures forall i :: 0 <= i < width ==>
      GlyphLevel(Bar(p, total, width)[i]) <= GlyphLevel(Bar(q, total, width)[i])
  {
    var eighths := (width * 8) as real;
    assert p / total <= q / total by {
      assert p / total * total == p && q / total * total == q;
    }
    assert p / total * eighths <= q / total * eighths;
    var fp, fq := FilledEighths(p, total, width), FilledEighths(q, total, width);
    assert fp <= fq;
    forall i | 0 <= i < width
      ensures GlyphLevel(Bar(p, total, width)[i]) <= GlyphLevel(Bar(q, total, width)[i])
    {
      CellLevel(fp, i);
      CellLevel(fq, i);
    }
  }
}
