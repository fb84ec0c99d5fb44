/**
 * The fallback QR renderer of scripts/qrcode-simple.js: a 32-bit string hash, a 25×25 module
 * grid painted from it with three finder squares on top, and the SVG text of the same grid.
 * The canvas is modelled at module resolution: one grid cell per `fillRect` of one module.
 */
module QrCodeSimple {
  import opened Wrappers
  import opened Text

  // ---------------------------------------------------------------------------
  // The 32-bit hash
  // ---------------------------------------------------------------------------

  const TwoTo31: int := 0x8000_0000
  const TwoTo32: int := 0x1_0000_0000

  /** ECMAScript `ToInt32`: the value in [-2^31, 2^31) congruent to `x` modulo 2^32. */
  function ToInt32(x: int): (r: int)
    ensures -TwoTo31 <= r < TwoTo31
    ensures (x - r) % TwoTo32 == 0
  {
    var m := x % TwoTo32;
    if m >= TwoTo31 then m - TwoTo32 else m
  }

  /** Two values congruent modulo 2^32 have the same 32-bit value. */
  lemma ToInt32Congruent(x: int, y: int)
    requires (x - y) % TwoTo32 == 0
    ensures ToInt32(x) == ToInt32(y)
  {
    var k := (x - y) / TwoTo32;
    assert x == y + k * TwoTo32;
    ModShift(y, k);
  }

  lemma ModShift(y: int, k: int)
    ensures (y + k * TwoTo32) % TwoTo32 == y % TwoTo32
  {
  }

  /** One step of the loop as written: `(hash << 5) - hash + char`, then `hash & hash`. */
  function HashStep(hash: int, code: int): int {
    ToInt32(ToInt32(hash * 32) - hash + code)
  }

  /** A step of the loop is the 32-bit value of `31 * hash + char`. */
  lemma HashStepIsMultiplyAdd(hash: int, code: int)
    ensures HashStep(hash, code) == ToInt32(31 * hash + code)
  {
    var s := ToInt32(hash * 32);
    assert (hash * 32 - s) % TwoTo32 == 0;
    assert (s - hash + code) - (31 * hash + code) == -(hash * 32 - s);
    ToInt32Congruent(s - hash + code, 31 * hash + code);
  }

  /** The 32-bit fold `h := ToInt32(31*h + c)` over the code units, from 0. */
  function HashFold(s: string): (h: int)
    ensures -TwoTo31 <= h < TwoTo31
  {
    if s == [] then 0 else ToInt32(31 * HashFold(s[..|s| - 1]) + s[|s| - 1] as int)
  }

  function Abs(x: int): nat { if x < 0 then -x else x }

  /** The hash of a text, as `simpleHash` returns it. */
  function HashOf(s: string): (h: nat)
    ensures h <= TwoTo31
  {
    Abs(HashFold(s))
  }

  /** `simpleHash`: the loop over the code units, then `Math.abs`. */
  method SimpleHash(str: string) returns (r: nat)
    ensures r == HashOf(str)
    ensures r <= TwoTo31
    ensures str == [] ==> r == 0
  {
    var hash := 0;
    for i := 0 to |str|
      invariant hash == HashFold(str[..i])
    {
      var code := str[i] as int;
      HashStepIsMultiplyAdd(hash, code);
      assert str[..i + 1][..i] == str[..i];
      hash := ToInt32(ToInt32(hash * 32) - hash + code);
    }
    assert str[..|str|] == str;
    r := if hash < 0 then -hash else hash;
  }

  // ---------------------------------------------------------------------------
  // Option defaults
  // ---------------------------------------------------------------------------

  datatype Colors = Colors(dark: Option<string>, light: Option<string>)

  /** The `options` argument; an absent property is `None`. */
  datatype Options = Options(width: Option<real>, margin: Option<real>, color: Option<Colors>)

  datatype Settings = Settings(size: real, margin: real, dark: string, light: string)

  /** `v || d` for a number: an absent or zero value gives the default. */
  function NumberOr(v: Option<real>, d: real): (r: real)
    ensures d != 0.0 ==> r != 0.0
    ensures v.Some? && v.value != 0.0 ==> r == v.value
    ensures (v.None? || v.value == 0.0) ==> r == d
  {
    if v.Some? && v.value != 0.0 then v.value else d
  }

  /** `v || d` for a string: an absent or empty value gives the default. */
  function TextOr(v: Option<string>, d: string): (r: string)
    ensures d != "" ==> r != ""
    ensures v.Some? && v.value != "" ==> r == v.value
    ensures (v.None? || v.value == "") ==> r == d
  {
    if v.Some? && v.value != "" then v.value else d
  }

  /** `options.color?.dark`: absent when there is no `color` object. */
  function DarkOption(o: Options): Option<string> {
    if o.color.Some? then o.color.value.dark else None
  }

  function LightOption(o: Options): Option<string> {
    if o.color.Some? then o.color.value.light else None
  }

  /** The defaults `toCanvas` resolves: width 256, margin 2, `#000000` on `#ffffff`. */
  function CanvasSettings(o: Options): (r: Settings)
    ensures r.size != 0.0 && r.margin != 0.0 && r.dark != "" && r.light != ""
  {
    Settings(NumberOr(o.width, 256.0), NumberOr(o.margin, 2.0),
             TextOr(DarkOption(o), "#000000"), TextOr(LightOption(o), "#ffffff"))
  }

  /** `toString` resolves width and colours the same way (it has no margin). */
  function SvgSettings(o: Options): (r: Settings)
    ensures r.size != 0.0 && r.dark != "" && r.light != ""
  {
    Settings(NumberOr(o.width, 256.0), 0.0, TextOr(DarkOption(o), "#000000"), TextOr(LightOption(o), "#ffffff"))
  }

  /** Both entry points draw at the same size and in the same colours for the same options. */
  lemma SettingsAgree(o: Options)
    ensures SvgSettings(o).size == CanvasSettings(o).size
    ensures SvgSettings(o).dark == CanvasSettings(o).dark && SvgSettings(o).light == CanvasSettings(o).light
  {
  }

  /** Resolving the resolved values again changes nothing: the defaults are never falsy. */
  lemma CanvasSettingsStable(o: Options)
    ensures CanvasSettings(Options(Some(CanvasSettings(o).size), Some(CanvasSettings(o).margin),
              Some(Colors(Some(CanvasSettings(o).dark), Some(CanvasSettings(o).light))))) == CanvasSettings(o)
  {
  }

  // ---------------------------------------------------------------------------
  // The module grid
  // ---------------------------------------------------------------------------

  /** The pattern cell rule: cell (x, y) is dark when `(hash + 25*y + x) % 3 == 0`. */
  predicate PatternDark(hash: nat, x: int, y: int) {
    (hash + (y * 25 + x)) % 3 == 0
  }

  /** `(x, y)` lies in the `w`×`h` rectangle whose top-left cell is `(x0, y0)`. */
  predicate InRect(x0: int, y0: int, w: int, h: int, x: int, y: int) {
    x0 <= x < x0 + w && y0 <= y < y0 + h
  }

  /** The colour of cell `(dx, dy)` of a finder square: dark ring, white ring, dark 3×3 centre. */
  function FinderCell(dx: int, dy: int, dark: string): string {
    if 2 <= dx <= 4 && 2 <= dy <= 4 then dark
    else if 1 <= dx <= 5 && 1 <= dy <= 5 then "#ffffff"
    else dark
  }

  /** The grid before the finder squares: the pattern in `dark` on `light`. */
  function PatternCell(hash: nat, x: int, y: int, dark: string, light: string): string {
    if PatternDark(hash, x, y) then dark else light
  }

  /** The finder squares' top-left cells, in the order they are drawn. */
  const FinderPositions: seq<(int, int)> := [(0, 0), (18, 0), (0, 18)]

  /** The colour of a cell once the three finders are painted over `under`. */
  function Finished(x: int, y: int, dark: string, under: string): string {
    if InRect(0, 0, 7, 7, x, y) then FinderCell(x, y, dark)
    else if InRect(18, 0, 7, 7, x, y) then FinderCell(x - 18, y, dark)
    else if InRect(0, 18, 7, 7, x, y) then FinderCell(x, y - 18, dark)
    else under
  }

  /** The fallback picture: the pattern with the three finders on top. */
  function FallbackCell(hash: nat, x: int, y: int, dark: string, light: string): string {
    Finished(x, y, dark, PatternCell(hash, x, y, dark, light))
  }

  /** Every finder cell depends on the dark colour alone: not on the text and not on `light`. */
  lemma FinderCellsIgnoreText(h1: nat, h2: nat, x: int, y: int, dark: string, l1: string, l2: string)
    requires InRect(0, 0, 7, 7, x, y) || InRect(18, 0, 7, 7, x, y) || InRect(0, 18, 7, 7, x, y)
    ensures FallbackCell(h1, x, y, dark, l1) == FallbackCell(h2, x, y, dark, l2)
    ensures FallbackCell(h1, x, y, dark, l1) == "#ffffff" || FallbackCell(h1, x, y, dark, l1) == dark
  {
  }

  /** A cell outside the three finders shows the pattern. */
  lemma OutsideFindersIsPattern(hash: nat, x: int, y: int, dark: string, light: string)
    requires 0 <= x < 25 && 0 <= y < 25
    requires !(x < 7 && y < 7) && !(x >= 18 && y < 7) && !(x < 7 && y >= 18)
    ensures FallbackCell(hash, x, y, dark, light) == (if PatternDark(hash, x, y) then dark else light)
  {
  }

  /** The outer ring and the centre of every finder are dark; the ring between is white. */
  lemma FinderRings(sx: int, sy: int, dx: int, dy: int, dark: string)
    requires 0 <= dx < 7 && 0 <= dy < 7
    ensures (dx == 0 || dx == 6 || dy == 0 || dy == 6) ==> FinderCell(dx, dy, dark) == dark
    ensures (2 <= dx <= 4 && 2 <= dy <= 4) ==> FinderCell(dx, dy, dark) == dark
    ensures (1 <= dx <= 5 && 1 <= dy <= 5 && !(2 <= dx <= 4 && 2 <= dy <= 4)) ==> FinderCell(dx, dy, dark) == "#ffffff"
  {
  }

  /** The canvas at module resolution: its size and its 25×25 cells, row by row. */
  class Canvas {
    var width: real
    var height: real
    const cells: array2<string>

    constructor()
      ensures cells.Length0 == 25 && cells.Length1 == 25 && fresh(cells)
      ensures width == 300.0 && height == 150.0
    {
      width, height := 300.0, 150.0;
      cells := new string[25, 25]((y, x) => "");
    }
  }

  /**
   * `ctx.fillRect` at module resolution: the cells of the rectangle that lie on the grid take
   * the colour, every other cell keeps its own.
   */
  method FillRect(grid: array2<string>, x0: int, y0: int, w: int, h: int, colour: string)
    modifies grid
    ensures forall y, x :: 0 <= y < grid.Length0 && 0 <= x < grid.Length1 ==>
              grid[y, x] == if InRect(x0, y0, w, h, x, y) then colour else old(grid[y, x])
  {
    var top, bottom := Max(y0, 0), Min(y0 + h, grid.Length0);
    var left, right := Max(x0, 0), Min(x0 + w, grid.Length1);
    if top < bottom && left < right {
      for y := top to bottom
        invariant forall i, j :: 0 <= i < grid.Length0 && 0 <= j < grid.Length1 ==>
                    grid[i, j] == if top <= i < y && left <= j < right then colour else old(grid[i, j])
      {
        for x := left to right
          invariant forall i, j :: 0 <= i < grid.Length0 && 0 <= j < grid.Length1 ==>
                      grid[i, j] == if (top <= i < y && left <= j < right) || (i == y && left <= j < x) then colour else old(grid[i, j])
        {
          grid[y, x] := colour;
        }
      }
    }
  }

  function Max(a: int, b: int): int { if a < b then b else a }
  function Min(a: int, b: int): int { if a < b then a else b }

  /** The `(hash + index) % 3` loops of `renderFallback`, over a grid filled with `light`. */
  method PaintPattern(grid: array2<string>, hash: nat, dark: string, light: string)
    requires grid.Length0 == 25 && grid.Length1 == 25
    requires forall y, x :: 0 <= y < 25 && 0 <= x < 25 ==> grid[y, x] == light
    modifies grid
    ensures forall y, x :: 0 <= y < 25 && 0 <= x < 25 ==> grid[y, x] == PatternCell(hash, x, y, dark, light)
  {
    for y := 0 to 25
      invariant forall i, j :: 0 <= i < 25 && 0 <= j < 25 ==>
                  grid[i, j] == if i < y then PatternCell(hash, j, i, dark, light) else light
    {
      for x := 0 to 25
        invariant forall i, j :: 0 <= i < 25 && 0 <= j < 25 ==>
                    grid[i, j] == if i < y || (i == y && j < x) then PatternCell(hash, j, i, dark, light) else light
      {
        var index := y * 25 + x;
        if (hash + index) % 3 == 0 {
          grid[y, x] := dark;
        }
      }
    }
  }

  /** One finder square: the 7×7 block in the current (dark) colour, the white 5×5, the dark 3×3. */
  method PaintFinder(grid: array2<string>, sx: int, sy: int, dark: string)
    modifies grid
    ensures forall y, x :: 0 <= y < grid.Length0 && 0 <= x < grid.Length1 ==>
              grid[y, x] == if InRect(sx, sy, 7, 7, x, y) then FinderCell(x - sx, y - sy, dark) else old(grid[y, x])
  {
    FillRect(grid, sx, sy, 7, 7, dark);
    FillRect(grid, sx + 1, sy + 1, 5, 5, "#ffffff");
    FillRect(grid, sx + 2, sy + 2, 3, 3, dark);
  }

  /** `addCornerSquares`: the three finders, in order, over whatever the grid holds. */
  method AddCornerSquares(grid: array2<string>, dark: string)
    requires grid.Length0 == 25 && grid.Length1 == 25
    modifies grid
    ensures forall y, x :: 0 <= y < 25 && 0 <= x < 25 ==> grid[y, x] == Finished(x, y, dark, old(grid[y, x]))
  {
    for k := 0 to |FinderPositions|
      invariant forall y, x :: 0 <= y < 25 && 0 <= x < 25 ==>
                  grid[y, x] == FinishedUpTo(k, x, y, dark, old(grid[y, x]))
    {
      var (sx, sy) := FinderPositions[k];
      PaintFinder(grid, sx, sy, dark);
    }
    forall y, x | 0 <= y < 25 && 0 <= x < 25
      ensures FinishedUpTo(|FinderPositions|, x, y, dark, old(grid[y, x])) == Finished(x, y, dark, old(grid[y, x]))
    {
      FinishedInAnyOrder(x, y, dark, old(grid[y, x]));
    }
  }

  /** The finders do not overlap, so painting them in order gives the picture `Finished` describes. */
  lemma FinishedInAnyOrder(x: int, y: int, dark: string, under: string)
    ensures FinishedUpTo(|FinderPositions|, x, y, dark, under) == Finished(x, y, dark, under)
  {
    assert FinderPositions[0] == (0, 0) && FinderPositions[1] == (18, 0) && FinderPositions[2] == (0, 18);
    assert FinishedUpTo(0, x, y, dark, under) == under;
    var u1 := FinishedUpTo(1, x, y, dark, under);
    assert u1 == if InRect(0, 0, 7, 7, x, y) then FinderCell(x, y, dark) else under;
    var u2 := FinishedUpTo(2, x, y, dark, under);
    assert u2 == if InRect(18, 0, 7, 7, x, y) then FinderCell(x - 18, y, dark) else u1;
    assert FinishedUpTo(3, x, y, dark, under) == if InRect(0, 18, 7, 7, x, y) then FinderCell(x, y - 18, dark) else u2;
  }

  /** The colour of a cell after the first `k` finders are painted over `under`. */
  function FinishedUpTo(k: nat, x: int, y: int, dark: string, under: string): string
    requires k <= |FinderPositions|
  {
    if k == 0 then under
    else
      var (sx, sy) := FinderPositions[k - 1];
      if InRect(sx, sy, 7, 7, x, y) then FinderCell(x - sx, y - sy, dark) else FinishedUpTo(k - 1, x, y, dark, under)
  }

  /**
   * `renderFallback`: the canvas becomes `size`×`size`, the grid is filled with `light`, the
   * pattern of the text's hash is painted in `dark`, and the three finders go on top.
   */
  method RenderFallback(canvas: Canvas, text: string, size: real, dark: string, light: string)
    requires canvas.cells.Length0 == 25 && canvas.cells.Length1 == 25
    modifies canvas, canvas.cells
    ensures canvas.width == size && canvas.height == size
    ensures forall y, x :: 0 <= y < 25 && 0 <= x < 25 ==>
              canvas.cells[y, x] == FallbackCell(HashOf(text), x, y, dark, light)
  {
    canvas.width := size;
    canvas.height := size;
    FillRect(canvas.cells, 0, 0, 25, 25, light);
    var hash := SimpleHash(text);
    PaintPattern(canvas.cells, hash, dark, light);
    AddCornerSquares(canvas.cells, dark);
  }

  /** `toCanvas` without the `QR` library: the fallback drawing with the resolved options. */
  method ToCanvas(canvas: Canvas, text: string, o: Options)
    requires canvas.cells.Length0 == 25 && canvas.cells.Length1 == 25
    modifies canvas, canvas.cells
    ensures canvas.width == CanvasSettings(o).size && canvas.height == CanvasSettings(o).size
    ensures forall y, x :: 0 <= y < 25 && 0 <= x < 25 ==>
              canvas.cells[y, x] == FallbackCell(HashOf(text), x, y, CanvasSettings(o).dark, CanvasSettings(o).light)
  {
    var s := CanvasSettings(o);
    RenderFallback(canvas, text, s.size, s.dark, s.light);
  }

  // ---------------------------------------------------------------------------
  // The SVG text
  // ---------------------------------------------------------------------------

  /** The number of modules along a side. */
  const Side: nat := 25

  /** The dark cells of row `y` left of column `x`, from left to right. */
  function RowCells(hash: nat, y: nat, x: nat): seq<(nat, nat)> {
    if x == 0 then [] else RowCells(hash, y, x - 1) + (if PatternDark(hash, x - 1, y) then [(x - 1, y)] else [])
  }

  /** The dark cells of the rows above `y`, row by row: the order the loops visit them. */
  function GridCells(hash: nat, y: nat): seq<(nat, nat)> {
    if y == 0 then [] else GridCells(hash, y - 1) + RowCells(hash, y - 1, Side)
  }

  /** A row lists exactly its dark cells left of `x`. */
  lemma {:induction false} RowCellsExact(hash: nat, y: nat, x: nat)
    ensures forall c :: c in RowCells(hash, y, x) <==> c.1 == y && c.0 < x && PatternDark(hash, c.0, c.1)
  {
    if x > 0 {
      RowCellsExact(hash, y, x - 1);
    }
  }

  /** The grid lists exactly the dark cells of the rows above `y`. */
  lemma {:induction false} GridCellsExact(hash: nat, y: nat)
    ensures forall c :: c in GridCells(hash, y) <==> c.1 < y && c.0 < 25 && PatternDark(hash, c.0, c.1)
  {
    if y > 0 {
      GridCellsExact(hash, y - 1);
      RowCellsExact(hash, y - 1, Side);
    }
  }

  /** One more column adds one cell when it is dark and none otherwise. */
  lemma RowCellsLength(hash: nat, y: nat, x: nat)
    ensures |RowCells(hash, y, x + 1)| == |RowCells(hash, y, x)| + if PatternDark(hash, x, y) then 1 else 0
  {
  }

  /** One more row adds that row's dark cells. */
  lemma GridCellsLength(hash: nat, y: nat)
    ensures |GridCells(hash, y + 1)| == |GridCells(hash, y)| + |RowCells(hash, y, Side)|
  {
  }

  /**
   * How many of `s, s + 1, …, s + x - 1` are multiples of 3 is `(x + Offset(s)) / 3`: the
   * offset says how early the first multiple comes.
   */
  function Offset(s: int): nat {
    if s % 3 == 0 then 2 else if s % 3 == 1 then 0 else 1
  }

  /** Counting one number further adds one exactly when that number is a multiple of 3. */
  lemma CountStep(s: int, x: nat)
    ensures (x + 1 + Offset(s)) / 3 == (x + Offset(s)) / 3 + if (s + x) % 3 == 0 then 1 else 0
  {
    var q, r := (s + x) / 3, (s + x) % 3;
    assert s + x == 3 * q + r;
  }

  /** The dark cells of a row left of `x`, counted. */
  lemma {:induction false} RowCellsCount(hash: nat, y: nat, x: nat)
    ensures |RowCells(hash, y, x)| == (x + Offset(hash + y * 25)) / 3
  {
    if x > 0 {
      RowCellsCount(hash, y, x - 1);
      RowCellsLength(hash, y, x - 1);
      CountStep(hash + y * 25, x - 1);
      assert hash + (y * 25 + (x - 1)) == hash + y * 25 + (x - 1);
    }
  }

  /** A row holds 9 dark cells when `(hash + y) % 3 == 0`, else 8. */
  lemma RowCount(hash: nat, y: nat)
    ensures |RowCells(hash, y, Side)| == if (hash + y) % 3 == 0 then 9 else 8
  {
    RowCellsCount(hash, y, Side);
    assert hash + y * 25 == (hash + y) + 3 * (8 * y);
    assert Offset(hash + y * 25) == Offset(hash + y);
  }

  /** The dark cells of the rows above `y`, counted. */
  lemma {:induction false} GridCellsCount(hash: nat, y: nat)
    ensures |GridCells(hash, y)| == 8 * y + (y + Offset(hash)) / 3
  {
    if y > 0 {
      GridCellsCount(hash, y - 1);
      GridCellsLength(hash, y - 1);
      RowCount(hash, y - 1);
      CountStep(hash, y - 1);
    }
  }

  /** The 625 cells give 209 dark rects when `hash % 3 == 0`, and 208 otherwise. */
  lemma SvgRectCount(hash: nat)
    ensures |GridCells(hash, Side)| == if hash % 3 == 0 then 209 else 208
  {
    GridCellsCount(hash, Side);
  }

  /**
   * A template literal: the literal parts with the values between them, so that
   * `Template([p0, p1, p2], [v0, v1])` is `p0 + v0 + p1 + v1 + p2`.
   */
  function Template(parts: seq<string>, values: seq<string>): string
    requires |parts| == |values| + 1
    decreases |values|
  {
    if values == [] then parts[0]
    else Template(parts[..|parts| - 1], values[..|values| - 1]) + values[|values| - 1] + parts[|parts| - 1]
  }

  /** The literal parts of the `<svg …>` opening tag, around four copies of the size. */
  const SvgOpenParts: seq<string> :=
    ["<svg width=\"", "\" height=\"", "\" viewBox=\"0 0 ", " ", "\" xmlns=\"http://www.w3.org/2000/svg\">"]

  /** The literal parts of the background rect, around the size twice and the light colour. */
  const BackgroundParts: seq<string> := ["<rect width=\"", "\" height=\"", "\" fill=\"", "\"/>"]

  /** The literal parts of a cell rect, around x, y, width, height and the dark colour. */
  const CellRectParts: seq<string> := ["<rect x=\"", "\" y=\"", "\" width=\"", "\" height=\"", "\" fill=\"", "\"/>"]

  /** The opening tag for a picture of the side whose number text is `n`. */
  function SvgOpen(n: string): string {
    Template(SvgOpenParts, [n, n, n, n])
  }

  /** The full-size background rect. */
  function SvgBackground(n: string, light: string): string {
    Template(BackgroundParts, [n, n, light])
  }

  /** The rect of cell `(x, y)`; `num` stands for JavaScript's number-to-string conversion. */
  function CellRect(x: int, y: int, moduleSize: real, dark: string, num: real -> string): string {
    Template(CellRectParts, [num(x as real * moduleSize), num(y as real * moduleSize), num(moduleSize), num(moduleSize), dark])
  }

  /** A cell rect, written out: `<rect x="…" y="…" width="…" height="…" fill="…"/>`. */
  lemma CellRectText(x: int, y: int, moduleSize: real, dark: string, num: real -> string)
    ensures CellRect(x, y, moduleSize, dark, num)
         == "<rect x=\"" + num(x as real * moduleSize) + "\" y=\"" + num(y as real * moduleSize)
            + "\" width=\"" + num(moduleSize) + "\" height=\"" + num(moduleSize) + "\" fill=\"" + dark + "\"/>"
  {
    var v := [num(x as real * moduleSize), num(y as real * moduleSize), num(moduleSize), num(moduleSize), dark];
    var p := CellRectParts;
    assert Template(p[..1], v[..0]) == p[0];
    assert p[..2][..1] == p[..1] && v[..1][..0] == v[..0];
    assert Template(p[..2], v[..1]) == p[0] + v[0] + p[1];
    assert p[..3][..2] == p[..2] && v[..2][..1] == v[..1];
    assert Template(p[..3], v[..2]) == p[0] + v[0] + p[1] + v[1] + p[2];
    assert p[..4][..3] == p[..3] && v[..3][..2] == v[..2];
    assert Template(p[..4], v[..3]) == p[0] + v[0] + p[1] + v[1] + p[2] + v[2] + p[3];
    assert p[..5][..4] == p[..4] && v[..4][..3] == v[..3];
    assert Template(p[..5], v[..4]) == p[0] + v[0] + p[1] + v[1] + p[2] + v[2] + p[3] + v[3] + p[4];
    assert p[..5] == p[..6][..5] && v[..4] == v[..5][..4] && p[..6] == p && v[..5] == v;
  }

  /** The rects of the listed cells, in order. */
  function CellRects(cells: seq<(nat, nat)>, moduleSize: real, dark: string, num: real -> string): string {
    if cells == [] then ""
    else
      var c := cells[|cells| - 1];
      CellRects(cells[..|cells| - 1], moduleSize, dark, num) + CellRect(c.0, c.1, moduleSize, dark, num)
  }

  /** The whole SVG text of a hash. */
  function SvgText(hash: nat, n: string, light: string, moduleSize: real, dark: string, num: real -> string): string {
    SvgOpen(n) + SvgBackground(n, light) + CellRects(GridCells(hash, Side), moduleSize, dark, num) + "</svg>"
  }

  /** The text opens with the `<svg` tag and its background rect, and closes with `</svg>`. */
  lemma SvgTextShape(hash: nat, n: string, light: string, moduleSize: real, dark: string, num: real -> string)
    ensures StartsWith(SvgText(hash, n, light, moduleSize, dark, num), SvgOpen(n) + SvgBackground(n, light))
    ensures EndsWith(SvgText(hash, n, light, moduleSize, dark, num), "</svg>")
  {
    var head, cells := SvgOpen(n) + SvgBackground(n, light), CellRects(GridCells(hash, Side), moduleSize, dark, num);
    StartsWithConcat(head, cells + "</svg>");
    assert head + cells + "</svg>" == head + (cells + "</svg>");
    EndsWithConcat(head + cells, "</svg>");
  }

  /** The rects of row `y` left of column `x`, as the inner loop emits them. */
  function RowRects(hash: nat, y: nat, x: nat, moduleSize: real, dark: string, num: real -> string): string {
    if x == 0 then ""
    else if PatternDark(hash, x - 1, y) then RowRects(hash, y, x - 1, moduleSize, dark, num) + CellRect(x - 1, y, moduleSize, dark, num)
    else RowRects(hash, y, x - 1, moduleSize, dark, num)
  }

  /** The rects of the rows above `y`, as the outer loop emits them. */
  function GridRects(hash: nat, y: nat, moduleSize: real, dark: string, num: real -> string): string {
    if y == 0 then "" else GridRects(hash, y - 1, moduleSize, dark, num) + RowRects(hash, y - 1, Side, moduleSize, dark, num)
  }

  /** The rects of two runs of cells, one after the other. */
  lemma {:induction false} CellRectsConcat(a: seq<(nat, nat)>, b: seq<(nat, nat)>, moduleSize: real, dark: string, num: real -> string)
    ensures CellRects(a + b, moduleSize, dark, num) == CellRects(a, moduleSize, dark, num) + CellRects(b, moduleSize, dark, num)
    decreases |b|
  {
    if b == [] {
      assert a + b == a;
    } else {
      var c, b' := b[|b| - 1], b[..|b| - 1];
      assert (a + b)[..|a + b| - 1] == a + b' && (a + b)[|a + b| - 1] == c;
      CellRectsConcat(a, b', moduleSize, dark, num);
      ConcatAssoc(CellRects(a, moduleSize, dark, num), CellRects(b', moduleSize, dark, num), CellRect(c.0, c.1, moduleSize, dark, num));
    }
  }

  /** The inner loop's text is the rects of the row's dark cells. */
  lemma {:induction false} RowRectsAreCellRects(hash: nat, y: nat, x: nat, moduleSize: real, dark: string, num: real -> string)
    ensures RowRects(hash, y, x, moduleSize, dark, num) == CellRects(RowCells(hash, y, x), moduleSize, dark, num)
  {
    if x > 0 {
      RowRectsAreCellRects(hash, y, x - 1, moduleSize, dark, num);
      var r, t := RowCells(hash, y, x - 1), RowRects(hash, y, x - 1, moduleSize, dark, num);
      if PatternDark(hash, x - 1, y) {
        var rx := r + [(x - 1, y)];
        assert RowCells(hash, y, x) == rx;
        assert rx[..|rx| - 1] == r && rx[|rx| - 1] == (x - 1, y);
        assert CellRects(rx, moduleSize, dark, num) == t + CellRect(x - 1, y, moduleSize, dark, num);
      } else {
        assert RowCells(hash, y, x) == r;
      }
    }
  }

  /** The outer loop's text is the rects of all dark cells above row `y`, in order. */
  lemma {:induction false} GridRectsAreCellRects(hash: nat, y: nat, moduleSize: real, dark: string, num: real -> string)
    ensures GridRects(hash, y, moduleSize, dark, num) == CellRects(GridCells(hash, y), moduleSize, dark, num)
  {
    if y > 0 {
      GridRectsAreCellRects(hash, y - 1, moduleSize, dark, num);
      GridRectsStep(hash, y, moduleSize, dark, num);
    }
  }

  /** One more row keeps the outer loop's text equal to the rects of the cells so far. */
  lemma GridRectsStep(hash: nat, y: nat, moduleSize: real, dark: string, num: real -> string)
    requires y > 0
    requires GridRects(hash, y - 1, moduleSize, dark, num) == CellRects(GridCells(hash, y - 1), moduleSize, dark, num)
    ensures GridRects(hash, y, moduleSize, dark, num) == CellRects(GridCells(hash, y), moduleSize, dark, num)
  {
    var p: nat := y - 1;
    var cells, row := GridCells(hash, p), RowCells(hash, p, Side);
    RowRectsAreCellRects(hash, p, Side, moduleSize, dark, num);
    CellRectsConcat(cells, row, moduleSize, dark, num);
    assert GridCells(hash, y) == cells + row;
    assert GridRects(hash, y, moduleSize, dark, num) == GridRects(hash, p, moduleSize, dark, num) + RowRects(hash, p, Side, moduleSize, dark, num);
  }

  /** The text the loops build is the SVG text. */
  lemma SvgTextFromRows(hash: nat, n: string, light: string, moduleSize: real, dark: string, num: real -> string)
    ensures SvgOpen(n) + SvgBackground(n, light) + GridRects(hash, Side, moduleSize, dark, num) + "</svg>"
         == SvgText(hash, n, light, moduleSize, dark, num)
  {
    GridRectsAreCellRects(hash, Side, moduleSize, dark, num);
  }

  /** The inner loop of `createSVG`: row `y`'s rects, appended to `prefix`. */
  method AppendRow(prefix: string, hash: nat, y: nat, moduleSize: real, dark: string, num: real -> string) returns (svg: string)
    ensures svg == prefix + RowRects(hash, y, Side, moduleSize, dark, num)
  {
    svg := prefix;
    for x := 0 to Side
      invariant svg == prefix + RowRects(hash, y, x, moduleSize, dark, num)
    {
      var index := y * 25 + x;
      if (hash + index) % 3 == 0 {
        ConcatAssoc(prefix, RowRects(hash, y, x, moduleSize, dark, num), CellRect(x, y, moduleSize, dark, num));
        svg := svg + CellRect(x, y, moduleSize, dark, num);
      }
    }
  }

  /** `createSVG`: the nested loops append one rect per dark pattern cell, without finders. */
  method CreateSvg(text: string, size: real, dark: string, light: string, num: real -> string) returns (svg: string)
    ensures svg == SvgText(HashOf(text), num(size), light, size / 25.0, dark, num)
  {
    var hash := SimpleHash(text);
    var moduleSize := size / 25.0;
    var head := SvgOpen(num(size)) + SvgBackground(num(size), light);
    svg := head;
    for y := 0 to Side
      invariant svg == head + GridRects(hash, y, moduleSize, dark, num)
    {
      ConcatAssoc(head, GridRects(hash, y, moduleSize, dark, num), RowRects(hash, y, Side, moduleSize, dark, num));
      svg := AppendRow(svg, hash, y, moduleSize, dark, num);
    }
    SvgTextFromRows(hash, num(size), light, moduleSize, dark, num);
    svg := svg + "</svg>";
  }

  /** `toString`: the SVG text at the resolved width and colours. */
  method ToSvgString(text: string, o: Options, num: real -> string) returns (svg: string)
    ensures svg == SvgText(HashOf(text), num(SvgSettings(o).size), SvgSettings(o).light,
                           SvgSettings(o).size / 25.0, SvgSettings(o).dark, num)
  {
    var s := SvgSettings(o);
    svg := CreateSvg(text, s.size, s.dark, s.light, num);
  }
}
