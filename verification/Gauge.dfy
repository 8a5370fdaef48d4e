/** The progress gauge: filling a box of terminal cells. */
module Gauge {

  datatype Cell = Cell(character: string, foreground: int, bold: bool, inverted: bool)

  datatype Box = Box(xMin: int, xMax: int, yMin: int, yMax: int) {
    predicate Has(x: int, y: int) {
      xMin <= x <= xMax && yMin <= y <= yMax
    }
  }

  /**
   * A grid of cells; a write outside it is lost, as with the terminal library's bounds-checked access.
   * `paints` counts the writes of a character to each position, on the grid or off it.
   */
  class Screen {
    const cells: array2<Cell>
    ghost var paints: (int, int) -> nat

    constructor (columns: nat, rows: nat, blank: Cell)
      ensures fresh(cells) && cells.Length0 == columns && cells.Length1 == rows
      ensures forall x, y :: 0 <= x < columns && 0 <= y < rows ==> cells[x, y] == blank
      ensures forall x, y :: paints(x, y) == 0
    {
      cells := new Cell[columns, rows]((_, _) => blank);
      paints := (_, _) => 0;
    }

    predicate On(x: int, y: int) {
      0 <= x < cells.Length0 && 0 <= y < cells.Length1
    }

    method Paint(x: int, y: int, character: string, foreground: int, bold: bool)
      modifies this, cells
      ensures forall a, b :: On(a, b) ==>
        cells[a, b] ==
          if a == x && b == y
          then old(cells[a, b]).(character := character, foreground := foreground, bold := bold)
          else old(cells[a, b])
      ensures forall a, b :: paints(a, b) == old(paints)(a, b) + if a == x && b == y then 1 else 0
    {
      if On(x, y) {
        cells[x, y] := cells[x, y].(character := character, foreground := foreground, bold := bold);
      }
      ghost var was := paints;
      paints := (a, b) => was(a, b) + if a == x && b == y then 1 else 0;
    }

    method SetCharacter(x: int, y: int, character: string)
      modifies this, cells
      ensures forall a, b :: On(a, b) ==>
        cells[a, b] == if a == x && b == y then old(cells[a, b]).(character := character) else old(cells[a, b])
      ensures forall a, b :: paints(a, b) == old(paints)(a, b) + if a == x && b == y then 1 else 0
    {
      if On(x, y) {
        cells[x, y] := cells[x, y].(character := character);
      }
      ghost var was := paints;
      paints := (a, b) => was(a, b) + if a == x && b == y then 1 else 0;
    }

    method ToggleInverted(x: int, y: int)
      modifies cells
      ensures forall a, b :: On(a, b) ==>
        cells[a, b] ==
          if a == x && b == y then old(cells[a, b]).(inverted := !old(cells[a, b].inverted)) else old(cells[a, b])
    {
      if On(x, y) {
        cells[x, y] := Flip(cells[x, y]);
      }
    }
  }

  function Flip(c: Cell): Cell {
    c.(inverted := !c.inverted)
  }

  // ---------------------------------------------------------------------------
  // Where the filled part ends
  // ---------------------------------------------------------------------------

  /** The cast of a real to an integer truncates toward zero. */
  function Trunc(r: real): int {
    if r >= 0.0 then r.Floor else -((-r).Floor)
  }

  /** A fraction of a whole number of cells. */
  function Part(fraction: real, n: int): real {
    fraction * n as real
  }

  function Limit(lo: int, hi: int, progress: real): real {
    lo as real + Part(progress, hi - lo + 1)
  }

  /** First position of [lo, hi] that is not filled. */
  function FillEnd(lo: int, hi: int, progress: real): int {
    Trunc(Limit(lo, hi, progress))
  }

  lemma TruncMonotone(a: real, b: real)
    requires a <= b
    ensures Trunc(a) <= Trunc(b)
  {
  }

  lemma TruncOfInt(n: int)
    ensures Trunc(n as real) == n
  {
  }

  lemma PartMonotone(p: real, q: real, n: int)
    requires p <= q
    ensures n >= 0 ==> Part(p, n) <= Part(q, n)
    ensures n <= 0 ==> Part(p, n) >= Part(q, n)
  {
  }

  lemma PartEnds(n: int)
    ensures Part(0.0, n) == 0.0 && Part(1.0, n) == n as real
  {
  }

  /** The filled part never leaves the box, wherever the box lies; an empty box has none. */
  lemma FillEndInBox(lo: int, hi: int, progress: real)
    requires 0.0 <= progress <= 1.0
    ensures if lo <= hi then lo <= FillEnd(lo, hi, progress) <= hi + 1 else FillEnd(lo, hi, progress) <= lo
  {
    hide Part, Trunc;
    var n, limit := hi - lo + 1, Limit(lo, hi, progress);
    TruncOfInt(lo);
    TruncOfInt(hi + 1);
    PartEnds(n);
    PartMonotone(0.0, progress, n);
    PartMonotone(progress, 1.0, n);
    if lo <= hi {
      TruncMonotone(lo as real, limit);
      TruncMonotone(limit, (hi + 1) as real);
    } else {
      TruncMonotone(limit, lo as real);
    }
  }

  /** More progress never fills less. */
  lemma FillEndMonotone(lo: int, hi: int, p: real, q: real)
    requires lo <= hi + 1 && p <= q
    ensures FillEnd(lo, hi, p) <= FillEnd(lo, hi, q)
  {
    hide Part, Trunc;
    PartMonotone(p, q, hi - lo + 1);
    TruncMonotone(Limit(lo, hi, p), Limit(lo, hi, q));
  }

  /** What the fill leaves over past its last whole cell. */
  function Fraction(progress: real, n: int): (f: real)
    ensures 0.0 <= f < 1.0
  {
    Part(progress, n) - Part(progress, n).Floor as real
  }

  /**
   * The filled part is floor(progress * width) cells, and one more exactly when its end lies left of
   * position 0 and inside a cell, because the cast truncates toward zero.
   */
  lemma FilledCount(lo: int, hi: int, progress: real)
    requires lo <= hi + 1 && 0.0 <= progress <= 1.0
    ensures FillEnd(lo, hi, progress) - lo == Part(progress, hi - lo + 1).Floor +
              if Limit(lo, hi, progress) < 0.0 && Fraction(progress, hi - lo + 1) != 0.0 then 1 else 0
    ensures lo >= 0 ==> Limit(lo, hi, progress) >= 0.0
  {
    hide Part, Trunc;
    PartEnds(hi - lo + 1);
    PartMonotone(0.0, progress, hi - lo + 1);
    FloorShift(lo, Part(progress, hi - lo + 1));
    TruncFromFloor(Limit(lo, hi, progress));
  }

  /** At or past position 0 the fill ends floor(progress * width) cells after the start. */
  lemma FilledTo(lo: int, hi: int, progress: real)
    requires 0 <= lo <= hi + 1 && 0.0 <= progress <= 1.0
    ensures FillEnd(lo, hi, progress) == lo + (progress * (hi - lo + 1) as real).Floor
  {
    FilledCount(lo, hi, progress);
    PartIsProduct(progress, hi - lo + 1);
    hide Part, Trunc;
  }

  lemma PartIsProduct(fraction: real, n: int)
    ensures Part(fraction, n) == fraction * n as real
  {
  }

  lemma FloorShift(n: int, x: real)
    ensures (n as real + x).Floor == n + x.Floor
  {
  }

  lemma TruncFromFloor(x: real)
    ensures Trunc(x) == x.Floor + if x < 0.0 && x.Floor as real != x then 1 else 0
  {
  }

  /** Index of the partly filled cell's glyph. */
  function PartialIndex(full: int, limit: real): int {
    Trunc(Part(limit - Trunc(limit) as real, full))
  }

  /** At or past position 0 the index is in the charset, and below the full glyph's unless that is the only one. */
  lemma PartialIndexInCharset(full: int, limit: real)
    requires full >= 0 && limit >= 0.0
    ensures 0 <= PartialIndex(full, limit) <= full
    ensures full > 0 ==> PartialIndex(full, limit) < full
  {
    var frac := limit - Trunc(limit) as real;
    assert 0.0 <= frac < 1.0;
    hide Part, Trunc;
    ProperPart(frac, full);
    TruncBelow(Part(frac, full), full);
  }

  /** There the partly filled cell's glyph is number floor(full * fraction). */
  lemma PartialIndexIs(lo: int, hi: int, progress: real, full: nat)
    requires 0 <= lo <= hi + 1 && 0.0 <= progress <= 1.0
    ensures
      var filled := progress * (hi - lo + 1) as real;
      PartialIndex(full, Limit(lo, hi, progress)) == ((filled - filled.Floor as real) * full as real).Floor
  {
    var limit, n := Limit(lo, hi, progress), hi - lo + 1;
    FilledCount(lo, hi, progress);
    FloorShift(lo, Part(progress, n));
    TruncFromFloor(limit);
    PartIsProduct(progress, n);
    PartIsProduct(Fraction(progress, n), full);
    assert limit - Trunc(limit) as real == Fraction(progress, n);
    hide Part, Trunc;
    PartEnds(full);
    PartMonotone(0.0, Fraction(progress, n), full);
    TruncFromFloor(Part(Fraction(progress, n), full));
  }

  lemma ProperPart(frac: real, n: int)
    requires 0.0 <= frac < 1.0 && n >= 0
    ensures 0.0 <= Part(frac, n) <= n as real && (n > 0 ==> Part(frac, n) < n as real)
  {
    PartEnds(n);
    PartMonotone(0.0, frac, n);
    Positive(1.0 - frac, n as real);
    assert Part(frac, n) == n as real - (1.0 - frac) * n as real;
  }

  lemma Positive(a: real, b: real)
    requires a > 0.0 && b >= 0.0
    ensures a * b >= 0.0 && (b > 0.0 ==> a * b > 0.0)
  {
  }

  lemma TruncBelow(x: real, n: int)
    requires 0.0 <= x <= n as real
    ensures 0 <= Trunc(x) <= n && (x < n as real ==> Trunc(x) < n)
  {
  }

  /**
   * The index lies in the charset exactly when the end is not left of position 0, or falls on a cell
   * boundary, or the part of its cell left unfilled is worth less than one glyph.
   */
  lemma PartialIndexIff(lo: int, hi: int, progress: real, full: int)
    requires lo <= hi && 0.0 <= progress <= 1.0 && full >= 0
    ensures 0 <= PartialIndex(full, Limit(lo, hi, progress)) <= full <==>
            IndexInCharset(lo, hi, progress, full)
  {
    var limit, f := Limit(lo, hi, progress), Fraction(progress, hi - lo + 1);
    if limit >= 0.0 {
      PartialIndexInCharset(full, limit);
    } else {
      FloorShift(lo, Part(progress, hi - lo + 1));
      TruncFromFloor(limit);
      assert limit - Trunc(limit) as real == if f == 0.0 then 0.0 else f - 1.0;
      hide Part, Trunc;
      PartEnds(full);
      if f != 0.0 {
        PartNegated(f - 1.0, full);
        ProperPart(1.0 - f, full);
        TruncOfNegative(Part(1.0 - f, full));
      } else {
        TruncOfInt(0);
      }
    }
  }

  predicate IndexInCharset(lo: int, hi: int, progress: real, full: int) {
    var f := Fraction(progress, hi - lo + 1);
    Limit(lo, hi, progress) >= 0.0 || f == 0.0 || Part(1.0 - f, full) < 1.0
  }

  lemma PartNegated(x: real, n: int)
    ensures Part(x, n) == -Part(-x, n)
  {
  }

  lemma TruncOfNegative(x: real)
    requires x >= 0.0
    ensures Trunc(-x) <= 0 && (Trunc(-x) == 0 <==> x < 1.0)
  {
  }

  /**
   * Whether drawing rows lo..hi keeps to the charset: besides the cases above, a fill that ends past the
   * last row draws no partial glyph and so reads no index.
   */
  predicate RowsDrawable(lo: int, hi: int, progress: real, full: int) {
    lo > hi || Limit(lo, hi, progress) > hi as real || IndexInCharset(lo, hi, progress, full)
  }

  /** Exactly the drawable rows never read a glyph outside the charset. */
  lemma RowsDrawableIff(lo: int, hi: int, progress: real, full: int)
    requires 0.0 <= progress <= 1.0 && full >= 0
    ensures RowsDrawable(lo, hi, progress, full) <==>
            (lo <= hi && FillEnd(lo, hi, progress) <= hi ==>
              0 <= PartialIndex(full, Limit(lo, hi, progress)) <= full)
  {
    if lo <= hi {
      var limit := Limit(lo, hi, progress);
      PartialIndexIff(lo, hi, progress, full);
      EndPastLastIff(limit, hi);
      hide Part, PartialIndex, Trunc;
    }
  }

  lemma EndPastLastIff(limit: real, hi: int)
    ensures limit < 0.0 ==> (Trunc(limit) > hi <==> limit > hi as real)
    ensures limit >= 0.0 && Trunc(limit) > hi ==> limit > hi as real
  {
  }

  /** Cells -2 and -1 at progress 0.25: one cell filled instead of none, and of nine glyphs number -4 is read. */
  lemma NegativeBoxFails()
    ensures FillEnd(-2, -1, 0.25) - -2 == 1 && Part(0.25, 2).Floor == 0
    ensures PartialIndex(8, Limit(-2, -1, 0.25)) == -4 && !RowsDrawable(-2, -1, 0.25, 8)
  {
    var limit := Limit(-2, -1, 0.25);
    assert limit == -1.5;
    var frac := limit - Trunc(limit) as real;
    assert frac == -0.5;
    assert Part(frac, 8) == -4.0;
    RowsDrawableIff(-2, -1, 0.25, 8);
  }

  /** Rows -1 to 2 at progress 0.5 start above row 0 and are drawable all the same. */
  lemma NegativeBoxMayBeDrawn()
    ensures RowsDrawable(-1, 2, 0.5, 8) && Limit(-1, 2, 0.5) == 1.0
  {
  }

  // ---------------------------------------------------------------------------
  // The gauge
  // ---------------------------------------------------------------------------

  datatype Direction = Right | Up | Left | Down

  const HORIZONTAL: seq<string> :=
    [" ", " ", "\U{258F}", "\U{258E}", "\U{258D}", "\U{258C}",
     "\U{258B}", "\U{258A}", "\U{2589}", "\U{2588}", "\U{2588}"]
  const HORIZONTAL_MICROSOFT: seq<string> :=
    [" ", " ", " ", " ", "\U{258C}", "\U{258C}", "\U{258C}", "\U{2588}", "\U{2588}", "\U{2588}", "\U{2588}"]
  const VERTICAL: seq<string> :=
    ["\U{2588}", "\U{2587}", "\U{2586}", "\U{2585}", "\U{2584}", "\U{2583}", "\U{2582}", "\U{2581}", " ", " "]

  /** Glyph i of the first eight is a block of 8 - i eighths of a cell. */
  lemma VerticalGlyphs(i: nat)
    requires i < 8
    ensures VERTICAL[i] == [(0x2588 - i) as char] && VERTICAL[8] == " "
  {
  }

  /** What a horizontal gauge shows at column x. */
  function RowCell(was: Cell, x: int, end: int, fullGlyph: string, emptyGlyph: string, fill: int, empty: int): Cell {
    if x < end then was.(character := fullGlyph, foreground := fill, bold := true)
    else was.(character := emptyGlyph, foreground := empty, bold := false)
  }

  /** What a vertical gauge shows at row y: full glyphs, one partial glyph, then empty ones. */
  function ColumnGlyph(y: int, end: int, fullGlyph: string, partialGlyph: string, emptyGlyph: string): string {
    if y < end then fullGlyph else if y == end then partialGlyph else emptyGlyph
  }

  class ProgressGauge {
    const progress: real
    const direction: Direction
    const charset: seq<string>
    const fillColor: int
    const emptyColor: int
    var box: Box

    /** Any progress is clamped to the unit interval. */
    constructor (progress: real, direction: Direction, fillColor: int, emptyColor: int, charset: seq<string>, box: Box)
      ensures 0.0 <= this.progress <= 1.0
      ensures 0.0 <= progress <= 1.0 ==> this.progress == progress
      ensures this.progress == progress || (progress < 0.0 == this.progress) || (progress > 1.0 == this.progress)
      ensures this.direction == direction && this.fillColor == fillColor && this.emptyColor == emptyColor
      ensures this.charset == charset && this.box == box
    {
      this.progress := if !(progress > 0.0) then 0.0 else if !(progress < 1.0) then 1.0 else progress;
      this.direction, this.fillColor, this.emptyColor := direction, fillColor, emptyColor;
      this.charset, this.box := charset, box;
    }

    /** One row: a filled prefix, the rest empty, each cell painted once. */
    method PaintRow(screen: Screen, y: int, end: int, fullGlyph: string, emptyGlyph: string)
      requires end <= box.xMin || end <= box.xMax + 1
      modifies screen, screen.cells
      ensures forall a, b :: screen.On(a, b) ==>
        var was := old(screen.cells[a, b]);
        screen.cells[a, b] ==
          if b != y || a < box.xMin || a > box.xMax then was
          else if a < end then was.(character := fullGlyph, foreground := fillColor, bold := true)
          else was.(character := emptyGlyph, foreground := emptyColor, bold := false)
      ensures forall a, b ::
        screen.paints(a, b) == old(screen.paints)(a, b) + if b == y && box.xMin <= a <= box.xMax then 1 else 0
    {
      var x := box.xMin;
      while x < end
        invariant box.xMin <= x && (x <= end || x == box.xMin)
        invariant forall a, b :: screen.On(a, b) ==>
          screen.cells[a, b] ==
            if b == y && box.xMin <= a < x
            then RowCell(old(screen.cells[a, b]), a, end, fullGlyph, emptyGlyph, fillColor, emptyColor)
            else old(screen.cells[a, b])
        invariant forall a, b ::
          screen.paints(a, b) == old(screen.paints)(a, b) + if b == y && box.xMin <= a < x then 1 else 0
      {
        screen.Paint(x, y, fullGlyph, fillColor, true);
        x := x + 1;
      }
      while x <= box.xMax
        invariant box.xMin <= x && end <= x && (x <= box.xMax + 1 || x == box.xMin)
        invariant forall a, b :: screen.On(a, b) ==>
          screen.cells[a, b] ==
            if b == y && box.xMin <= a < x
            then RowCell(old(screen.cells[a, b]), a, end, fullGlyph, emptyGlyph, fillColor, emptyColor)
            else old(screen.cells[a, b])
        invariant forall a, b ::
          screen.paints(a, b) == old(screen.paints)(a, b) + if b == y && box.xMin <= a < x then 1 else 0
      {
        screen.Paint(x, y, emptyGlyph, emptyColor, false);
        x := x + 1;
      }
    }

    /** One column: full glyphs, the partial one, then empty ones, each cell painted once. */
    method PaintColumn(screen: Screen, x: int, end: int, fullGlyph: string, partialGlyph: string, emptyGlyph: string)
      requires if box.yMin <= box.yMax then box.yMin <= end <= box.yMax + 1 else end <= box.yMin
      modifies screen, screen.cells
      ensures forall a, b :: screen.On(a, b) ==>
        var was := old(screen.cells[a, b]);
        screen.cells[a, b] ==
          if a != x || b < box.yMin || b > box.yMax then was
          else was.(character := if b < end then fullGlyph else if b == end then partialGlyph else emptyGlyph)
      ensures forall a, b ::
        screen.paints(a, b) == old(screen.paints)(a, b) + if a == x && box.yMin <= b <= box.yMax then 1 else 0
    {
      var y := box.yMin;
      while y < end
        invariant box.yMin <= y && (y <= end || y == box.yMin)
        invariant forall a, b :: screen.On(a, b) ==>
          screen.cells[a, b] ==
            if a == x && box.yMin <= b < y
            then old(screen.cells[a, b]).(character := ColumnGlyph(b, end, fullGlyph, partialGlyph, emptyGlyph))
            else old(screen.cells[a, b])
        invariant forall a, b ::
          screen.paints(a, b) == old(screen.paints)(a, b) + if a == x && box.yMin <= b < y then 1 else 0
      {
        screen.SetCharacter(x, y, fullGlyph);
        y := y + 1;
      }
      if y <= box.yMax {
        screen.SetCharacter(x, y, partialGlyph);
        y := y + 1;
      }
      while y <= box.yMax
        invariant box.yMin <= y && end <= y
        invariant if box.yMin <= box.yMax then y <= box.yMax + 1 && (end <= box.yMax ==> end < y) else y == box.yMin
        invariant forall a, b :: screen.On(a, b) ==>
          screen.cells[a, b] ==
            if a == x && box.yMin <= b < y
            then old(screen.cells[a, b]).(character := ColumnGlyph(b, end, fullGlyph, partialGlyph, emptyGlyph))
            else old(screen.cells[a, b])
        invariant forall a, b ::
          screen.paints(a, b) == old(screen.paints)(a, b) + if a == x && box.yMin <= b < y then 1 else 0
      {
        screen.SetCharacter(x, y, emptyGlyph);
        y := y + 1;
      }
    }

    /** Toggles the inverted flag of every cell of the box, once. */
    method Invert(screen: Screen)
      modifies screen.cells
      ensures forall a, b :: screen.On(a, b) ==>
        var was := old(screen.cells[a, b]);
        screen.cells[a, b] ==
          if box.xMin <= a <= box.xMax && box.yMin <= b <= box.yMax then was.(inverted := !was.inverted) else was
    {
      var y := box.yMin;
      while y <= box.yMax
        invariant box.yMin <= y && (y <= box.yMax + 1 || y == box.yMin)
        invariant forall a, b :: screen.On(a, b) ==>
          screen.cells[a, b] ==
            if box.Has(a, b) && b < y then Flip(old(screen.cells[a, b])) else old(screen.cells[a, b])
      {
        var x := box.xMin;
        while x <= box.xMax
          invariant box.xMin <= x
          invariant forall a, b :: screen.On(a, b) ==>
            screen.cells[a, b] ==
              if box.Has(a, b) && (b < y || (b == y && a < x)) then Flip(old(screen.cells[a, b]))
              else old(screen.cells[a, b])
        {
          screen.ToggleInverted(x, y);
          x := x + 1;
        }
        y := y + 1;
      }
    }

    /** Inverting twice restores every cell. */
    method InvertTwice(screen: Screen)
      modifies screen.cells
      ensures forall a, b :: screen.On(a, b) ==> screen.cells[a, b] == old(screen.cells[a, b])
    {
      Invert(screen);
      Invert(screen);
    }

    function Glyphs(blockCharacters: bool): (g: seq<string>)
      ensures g != []
      ensures charset != [] ==> g == charset
      ensures charset == [] && (direction.Right? || direction.Left?) ==> |g| == 11 && g[0] == " " && g[9] == "\U{2588}"
      ensures charset == [] && (direction.Up? || direction.Down?) ==> |g| == 10 && g[0] == "\U{2588}" && g[8] == " "
    {
      if charset != [] then charset
      else if direction.Right? || direction.Left? then
        (if blockCharacters then HORIZONTAL else HORIZONTAL_MICROSOFT)
      else VERTICAL
    }

    /** Index of the full glyph: the default sets carry one spare glyph at the end. */
    function FullIndex(): (full: nat)
      ensures full < |Glyphs(true)| && full < |Glyphs(false)|
      ensures if charset != [] then full == |charset| - 1 else full == |Glyphs(true)| - 2
    {
      if charset != [] then |charset| - 1 else if direction.Right? || direction.Left? then 9 else 8
    }

    /** The rows of the box, in order. */
    method PaintRows(screen: Screen, end: int, fullGlyph: string, emptyGlyph: string)
      requires end <= box.xMin || end <= box.xMax + 1
      modifies screen, screen.cells
      ensures forall a, b :: screen.On(a, b) ==>
        var was := old(screen.cells[a, b]);
        screen.cells[a, b] ==
          if a < box.xMin || a > box.xMax || b < box.yMin || b > box.yMax then was
          else if a < end then was.(character := fullGlyph, foreground := fillColor, bold := true)
          else was.(character := emptyGlyph, foreground := emptyColor, bold := false)
      ensures forall a, b ::
        screen.paints(a, b) ==
          old(screen.paints)(a, b) + if box.xMin <= a <= box.xMax && box.yMin <= b <= box.yMax then 1 else 0
    {
      var y := box.yMin;
      while y <= box.yMax
        invariant box.yMin <= y && (y <= box.yMax + 1 || y == box.yMin)
        invariant forall a, b :: screen.On(a, b) ==>
          screen.cells[a, b] ==
            if box.Has(a, b) && b < y
            then RowCell(old(screen.cells[a, b]), a, end, fullGlyph, emptyGlyph, fillColor, emptyColor)
            else old(screen.cells[a, b])
        invariant forall a, b ::
          screen.paints(a, b) == old(screen.paints)(a, b) + if box.Has(a, b) && b < y then 1 else 0
      {
        PaintRow(screen, y, end, fullGlyph, emptyGlyph);
        y := y + 1;
      }
    }

    /** Rightward and leftward gauges; `end` is the first column that is not filled. */
    method RenderHorizontal(screen: Screen, invert: bool, blockCharacters: bool) returns (ghost end: int)
      requires direction.Right? || direction.Left?
      requires 0.0 <= progress <= 1.0
      modifies screen, screen.cells
      ensures forall a, b :: 0 <= a < screen.cells.Length0 && 0 <= b < screen.cells.Length1 ==>
        var was, now := old(screen.cells[a, b]), screen.cells[a, b];
        if a < box.xMin || a > box.xMax || b < box.yMin || b > box.yMax then now == was
        else
          && now.inverted == (was.inverted != invert)
          && if a < end then
               && now.character == (if charset == [] then "\U{2588}" else charset[|charset| - 1])
               && now.foreground == fillColor && now.bold
             else
               && now.character == (if charset == [] then " " else charset[0])
               && now.foreground == emptyColor && !now.bold
      ensures end == FillEnd(box.xMin, box.xMax, if invert then 1.0 - progress else progress)
      ensures 0 <= box.xMin <= box.xMax && !invert ==>
        end == box.xMin + (progress * (box.xMax - box.xMin + 1) as real).Floor
      ensures 0 <= box.xMin <= box.xMax && invert ==>
        end == box.xMin + ((1.0 - progress) * (box.xMax - box.xMin + 1) as real).Floor
      ensures forall a, b ::
        screen.paints(a, b) ==
          old(screen.paints)(a, b) + if box.xMin <= a <= box.xMax && box.yMin <= b <= box.yMax then 1 else 0
    {
      hide Part, Trunc, Glyphs, FullIndex;
      end := FillEnd(box.xMin, box.xMax, if invert then 1.0 - progress else progress);
      FillEndInBox(box.xMin, box.xMax, if invert then 1.0 - progress else progress);
      if 0 <= box.xMin <= box.xMax {
        FilledTo(box.xMin, box.xMax, progress);
        FilledTo(box.xMin, box.xMax, 1.0 - progress);
      }
      if box.yMin > box.yMax {
        return;
      }
      var glyphs, full := Glyphs(blockCharacters), FullIndex();
      var limit := FillEnd(box.xMin, box.xMax, if invert then 1.0 - progress else progress);
      PaintRows(screen, limit, glyphs[full], glyphs[0]);
      if invert {
        Invert(screen);
      }
    }

    /** The gauge's progress as a vertical drawing uses it: measured from the top. */
    function FromTop(invert: bool): real {
      if invert then progress else 1.0 - progress
    }

    /** An empty box is never drawn; of any other the rows must keep to the charset. */
    predicate VerticalDrawable(invert: bool)
      reads this
    {
      box.xMin <= box.xMax ==> RowsDrawable(box.yMin, box.yMax, FromTop(invert), FullIndex())
    }

    /** The glyph of the row where the fill ends; there is none when that is past the last row. */
    function PartialGlyph(invert: bool): string
      requires 0.0 <= progress <= 1.0 && RowsDrawable(box.yMin, box.yMax, FromTop(invert), FullIndex())
      reads this
    {
      var limit := Limit(box.yMin, box.yMax, FromTop(invert));
      if box.yMin <= box.yMax && Trunc(limit) <= box.yMax then
        RowsDrawableIff(box.yMin, box.yMax, FromTop(invert), FullIndex());
        Glyphs(true)[PartialIndex(FullIndex(), limit)]
      else Glyphs(true)[0]
    }

    /** The columns of the box, in order. */
    method PaintColumns(screen: Screen, end: int, fullGlyph: string, partialGlyph: string, emptyGlyph: string)
      requires if box.yMin <= box.yMax then box.yMin <= end <= box.yMax + 1 else end <= box.yMin
      modifies screen, screen.cells
      ensures forall a, b :: screen.On(a, b) ==>
        var was := old(screen.cells[a, b]);
        screen.cells[a, b] ==
          if a < box.xMin || a > box.xMax || b < box.yMin || b > box.yMax then was
          else was.(character := if b < end then fullGlyph else if b == end then partialGlyph else emptyGlyph)
      ensures forall a, b ::
        screen.paints(a, b) ==
          old(screen.paints)(a, b) + if box.xMin <= a <= box.xMax && box.yMin <= b <= box.yMax then 1 else 0
    {
      var x := box.xMin;
      while x <= box.xMax
        invariant box.xMin <= x && (x <= box.xMax + 1 || x == box.xMin)
        invariant forall a, b :: screen.On(a, b) ==>
          screen.cells[a, b] ==
            if box.Has(a, b) && a < x
            then old(screen.cells[a, b]).(character := ColumnGlyph(b, end, fullGlyph, partialGlyph, emptyGlyph))
            else old(screen.cells[a, b])
        invariant forall a, b ::
          screen.paints(a, b) == old(screen.paints)(a, b) + if box.Has(a, b) && a < x then 1 else 0
      {
        PaintColumn(screen, x, end, fullGlyph, partialGlyph, emptyGlyph);
        x := x + 1;
      }
    }

    /**
     * Upward and downward gauges, over every box of which the source reads no glyph outside the charset:
     * full glyphs above row `end`, glyph `partial` at it, empty ones below, and nothing else changes but
     * the inversion.
     */
    method RenderVertical(screen: Screen, invert: bool) returns (ghost end: int, ghost partial: string)
      requires direction.Up? || direction.Down?
      requires 0.0 <= progress <= 1.0 && VerticalDrawable(invert)
      modifies screen, screen.cells
      ensures forall a, b :: 0 <= a < screen.cells.Length0 && 0 <= b < screen.cells.Length1 ==>
        var was, now := old(screen.cells[a, b]), screen.cells[a, b];
        if a < box.xMin || a > box.xMax || b < box.yMin || b > box.yMax then now == was
        else
          && now.inverted == (was.inverted != invert)
          && now.foreground == was.foreground && now.bold == was.bold
          && if b < end then now.character == if charset == [] then " " else charset[|charset| - 1]
             else if b > end then now.character == if charset == [] then "\U{2588}" else charset[0]
             else now.character == partial
      ensures
        var p := if invert then progress else 1.0 - progress;
        && end == FillEnd(box.yMin, box.yMax, p)
        && var index := PartialIndex(FullIndex(), Limit(box.yMin, box.yMax, p));
        && (box.xMin <= box.xMax && box.yMin <= end <= box.yMax ==>
             0 <= index <= FullIndex() && partial == Glyphs(true)[index])
      ensures 0 <= box.yMin <= box.yMax && !invert ==>
        end == box.yMin + ((1.0 - progress) * (box.yMax - box.yMin + 1) as real).Floor
      ensures 0 <= box.yMin <= box.yMax && invert ==>
        end == box.yMin + (progress * (box.yMax - box.yMin + 1) as real).Floor
      ensures forall a, b ::
        screen.paints(a, b) ==
          old(screen.paints)(a, b) + if box.xMin <= a <= box.xMax && box.yMin <= b <= box.yMax then 1 else 0
    {
      hide Part, Trunc, RowsDrawable, PartialIndex, IndexInCharset, Glyphs, FullIndex;
      end := FillEnd(box.yMin, box.yMax, FromTop(invert));
      partial := "";
      FillEndInBox(box.yMin, box.yMax, FromTop(invert));
      if 0 <= box.yMin <= box.yMax {
        FilledTo(box.yMin, box.yMax, progress);
        FilledTo(box.yMin, box.yMax, 1.0 - progress);
      }
      if box.xMin > box.xMax {
        return;
      }
      RowsDrawableIff(box.yMin, box.yMax, FromTop(invert), FullIndex());
      var glyphs, full := Glyphs(true), FullIndex();
      partial := PartialGlyph(invert);
      PaintColumns(
        screen, FillEnd(box.yMin, box.yMax, FromTop(invert)), glyphs[full], PartialGlyph(invert), glyphs[0]);
      if invert {
        Invert(screen);
      }
    }

    /** Leftward and downward gauges are inverted; `end` and `partial` are those of the drawing's own direction. */
    method Render(screen: Screen, blockCharacters: bool) returns (ghost end: int, ghost partial: string)
      requires 0.0 <= progress <= 1.0
      requires direction.Up? ==> VerticalDrawable(false)
      requires direction.Down? ==> VerticalDrawable(true)
      modifies screen, screen.cells
      ensures forall a, b :: 0 <= a < screen.cells.Length0 && 0 <= b < screen.cells.Length1 ==>
        var was, now := old(screen.cells[a, b]), screen.cells[a, b];
        if a < box.xMin || a > box.xMax || b < box.yMin || b > box.yMax then now == was
        else now.inverted == (was.inverted != (direction.Left? || direction.Down?))
      ensures direction.Right? || direction.Left? ==>
        forall a, b :: 0 <= a < screen.cells.Length0 && 0 <= b < screen.cells.Length1 ==>
          box.xMin <= a <= box.xMax && box.yMin <= b <= box.yMax ==>
            var now := screen.cells[a, b];
            if a < end then
              && now.character == (if charset == [] then "\U{2588}" else charset[|charset| - 1])
              && now.foreground == fillColor && now.bold
            else
              && now.character == (if charset == [] then " " else charset[0])
              && now.foreground == emptyColor && !now.bold
      ensures direction.Up? || direction.Down? ==>
        forall a, b :: 0 <= a < screen.cells.Length0 && 0 <= b < screen.cells.Length1 ==>
          box.xMin <= a <= box.xMax && box.yMin <= b <= box.yMax ==>
            var was, now := old(screen.cells[a, b]), screen.cells[a, b];
            && now.foreground == was.foreground && now.bold == was.bold
            && if b < end then now.character == if charset == [] then " " else charset[|charset| - 1]
               else if b > end then now.character == if charset == [] then "\U{2588}" else charset[0]
               else now.character == partial
      ensures direction.Right? || direction.Left? ==>
        end == FillEnd(box.xMin, box.xMax, if direction.Left? then 1.0 - progress else progress)
      ensures direction.Up? || direction.Down? ==>
        var p := if direction.Down? then progress else 1.0 - progress;
        && end == FillEnd(box.yMin, box.yMax, p)
        && var index := PartialIndex(FullIndex(), Limit(box.yMin, box.yMax, p));
        && (box.xMin <= box.xMax && box.yMin <= end <= box.yMax ==>
             0 <= index <= FullIndex() && partial == Glyphs(true)[index])
      ensures direction.Right? && 0 <= box.xMin <= box.xMax ==>
        end == box.xMin + (progress * (box.xMax - box.xMin + 1) as real).Floor
      ensures direction.Left? && 0 <= box.xMin <= box.xMax ==>
        end == box.xMin + ((1.0 - progress) * (box.xMax - box.xMin + 1) as real).Floor
      ensures direction.Up? && 0 <= box.yMin <= box.yMax ==>
        end == box.yMin + ((1.0 - progress) * (box.yMax - box.yMin + 1) as real).Floor
      ensures direction.Down? && 0 <= box.yMin <= box.yMax ==>
        end == box.yMin + (progress * (box.yMax - box.yMin + 1) as real).Floor
      ensures forall a, b ::
        screen.paints(a, b) ==
          old(screen.paints)(a, b) + if box.xMin <= a <= box.xMax && box.yMin <= b <= box.yMax then 1 else 0
    {
      hide *;
      partial := "";
      match direction
      case Right => end := RenderHorizontal(screen, false, blockCharacters);
      case Up => end, partial := RenderVertical(screen, false);
      case Left => end := RenderHorizontal(screen, true, blockCharacters);
      case Down => end, partial := RenderVertical(screen, true);
    }
  }
}
