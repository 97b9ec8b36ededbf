/** Drawing quadrants and sextants: the tiles split a cell of any size without
    gaps or overlaps. */
module Tiles {
  import opened Canvas
  import opened TileTables

  // ---- Cutting the cell ----

  /** The left column, or the upper row of a quadrant: half the side, rounded
      up, never empty. */
  function FirstHalf(side: nat): nat {
    Max(Rounded(side, 2), 1)
  }

  /** Each of the two upper rows of a sextant: a third of the height, rounded. */
  function Third(height: nat): nat {
    Max(Rounded(height, 3), 1)
  }

  /** The rectangle painted for a tile. */
  function QuadrantTile(tile: nat, width: nat, height: nat): Rect {
    var x, y := FirstHalf(width), FirstHalf(height);
    Rect(if tile % 2 == 0 then 0 else x, if tile < 2 then 0 else y, x, y)
  }

  function SextantTile(tile: nat, width: nat, height: nat): Rect {
    var x, y := FirstHalf(width), Third(height);
    Rect(if tile % 2 == 0 then 0 else x, tile / 2 * y, x,
         if tile < 4 then y else height - 2 * y)
  }

  predicate QuadrantInk(c: char, width: nat, height: nat, x: int, y: int) {
    exists tile :: 0 <= tile < 4 && QuadrantLights(c, tile) && Covers(QuadrantTile(tile, width, height), x, y)
  }

  predicate SextantInk(c: char, width: nat, height: nat, x: int, y: int) {
    exists tile :: 0 <= tile < 6 && SextantLights(c, tile) && Covers(SextantTile(tile, width, height), x, y)
  }

  /** Paint a tile; one that is not lit has no extent. */
  method PaintTile(canvas: Canvas, lit: bool, tile: Rect)
    requires canvas.Valid() && Drawable(tile, canvas.width, canvas.height)
    requires 0 <= tile.x <= canvas.width
    modifies canvas.buffer
    ensures forall x: nat, y: nat :: canvas.Inside(x, y) ==>
      canvas.At(x, y) == if lit && Covers(tile, x, y) then FILL else old(canvas.At(x, y))
  {
    canvas.DrawRect(if lit then tile else tile.(width := 0, height := 0), FILL);
  }

  method DrawQuadrants(c: char, width: nat, height: nat) returns (canvas: Canvas)
    requires IsQuadrant(c) && width > 0 && height > 0
    ensures canvas.Valid() && fresh(canvas) && fresh(canvas.buffer)
    ensures canvas.width == width && canvas.height == height
    ensures forall x: nat, y: nat :: canvas.Inside(x, y) ==>
      canvas.At(x, y) == if QuadrantInk(c, width, height, x, y) then FILL else 0
  {
    canvas := new Canvas(width, height);
    PaintTile(canvas, QuadrantLights(c, 0), QuadrantTile(0, width, height));
    PaintTile(canvas, QuadrantLights(c, 1), QuadrantTile(1, width, height));
    PaintTile(canvas, QuadrantLights(c, 2), QuadrantTile(2, width, height));
    PaintTile(canvas, QuadrantLights(c, 3), QuadrantTile(3, width, height));
  }

  method DrawSextants(c: char, width: nat, height: nat) returns (canvas: Canvas)
    requires IsSextant(c) && width > 0 && height > 0
    ensures canvas.Valid() && fresh(canvas) && fresh(canvas.buffer)
    ensures canvas.width == width && canvas.height == height
    ensures forall x: nat, y: nat :: canvas.Inside(x, y) ==>
      canvas.At(x, y) == if SextantInk(c, width, height, x, y) then FILL else 0
  {
    canvas := new Canvas(width, height);
    PaintTile(canvas, SextantLights(c, 0), SextantTile(0, width, height));
    PaintTile(canvas, SextantLights(c, 1), SextantTile(1, width, height));
    PaintTile(canvas, SextantLights(c, 2), SextantTile(2, width, height));
    PaintTile(canvas, SextantLights(c, 3), SextantTile(3, width, height));
    PaintTile(canvas, SextantLights(c, 4), SextantTile(4, width, height));
    PaintTile(canvas, SextantLights(c, 5), SextantTile(5, width, height));
  }

  // ---- Tilings ----

  /** The tile a pixel falls in. */
  function QuadrantAt(width: nat, height: nat, x: nat, y: nat): (tile: nat)
    ensures tile < 4
  {
    (if x < FirstHalf(width) then 0 else 1) + if y < FirstHalf(height) then 0 else 2
  }

  function SextantAt(width: nat, height: nat, x: nat, y: nat): (tile: nat)
    ensures tile < 6
  {
    (if x < FirstHalf(width) then 0 else 1)
    + if y < Third(height) then 0 else if y < 2 * Third(height) then 2 else 4
  }

  /** The painted tiles cover every pixel exactly once. */
  lemma QuadrantsTile(width: nat, height: nat, x: nat, y: nat, tile: nat)
    requires x < width && y < height && tile < 4
    ensures Covers(QuadrantTile(tile, width, height), x, y) <==> tile == QuadrantAt(width, height, x, y)
  {
  }

  lemma SextantsTile(width: nat, height: nat, x: nat, y: nat, tile: nat)
    requires x < width && y < height && tile < 6
    ensures Covers(SextantTile(tile, width, height), x, y) <==> tile == SextantAt(width, height, x, y)
  {
    assert tile / 2 == 0 || tile / 2 == 1 || tile / 2 == 2;
  }

  /** Columns and rows of tiles differ by a pixel at most, but in a cell too low
      to have a bottom row. */
  lemma TilesAreEven(width: nat, height: nat)
    requires width > 0 && height > 0
    ensures 0 <= FirstHalf(width) - (width - FirstHalf(width)) <= 1
    ensures -1 <= Third(height) - (height - 2 * Third(height)) <= 1 <==> height > 1
  {
  }

  /** A pixel is filled exactly when the pattern has its tile. */
  lemma QuadrantShowsItsPattern(c: char, width: nat, height: nat, x: nat, y: nat)
    requires IsQuadrant(c) && x < width && y < height
    ensures QuadrantInk(c, width, height, x, y) <==> Bit(QuadrantPattern(c), QuadrantAt(width, height, x, y))
  {
    var at := QuadrantAt(width, height, x, y);
    QuadrantLightsItsPattern(c, at);
    QuadrantsTile(width, height, x, y, at);
    forall tile | 0 <= tile < 4 && Covers(QuadrantTile(tile, width, height), x, y)
      ensures tile == at
    {
      QuadrantsTile(width, height, x, y, tile);
    }
  }

  lemma SextantShowsItsPattern(c: char, width: nat, height: nat, x: nat, y: nat)
    requires IsSextant(c) && x < width && y < height
    ensures SextantInk(c, width, height, x, y) <==> Bit(SextantPattern(c), SextantAt(width, height, x, y))
  {
    var at := SextantAt(width, height, x, y);
    SextantLightsItsPattern(c, at);
    SextantsTile(width, height, x, y, at);
    forall tile | 0 <= tile < 6 && Covers(SextantTile(tile, width, height), x, y)
      ensures tile == at
    {
      SextantsTile(width, height, x, y, tile);
    }
  }

  // ---- Complements ----

  /** The quadrant character that lights the other tiles, for the five pairs of
      characters that have one. */
  predicate AreOpposite(c: char, d: char) {
    QuadrantPattern(c) + QuadrantPattern(d) == Ones(4)
  }

  /** The number whose n lowest bits are set. */
  function Ones(n: nat): nat {
    if n == 0 then 0 else 2 * Ones(n - 1) + 1
  }

  lemma {:induction false} OppositeBits(p: nat, q: nat, n: nat, i: nat)
    requires i < n && p + q == Ones(n)
    ensures Bit(p, i) != Bit(q, i)
  {
    assert p + q == 2 * Ones(n - 1) + 1;
    if i > 0 {
      assert p / 2 + q / 2 == Ones(n - 1);
      OppositeBits(p / 2, q / 2, n - 1, i - 1);
    }
  }

  /** U+259A and U+259E, among others, fill exactly each other's blanks. */
  lemma OppositeQuadrants(c: char, d: char, width: nat, height: nat, x: nat, y: nat)
    requires IsQuadrant(c) && IsQuadrant(d) && AreOpposite(c, d)
    requires x < width && y < height
    ensures QuadrantInk(c, width, height, x, y) != QuadrantInk(d, width, height, x, y)
  {
    QuadrantShowsItsPattern(c, width, height, x, y);
    QuadrantShowsItsPattern(d, width, height, x, y);
    OppositeBits(QuadrantPattern(c), QuadrantPattern(d), 4, QuadrantAt(width, height, x, y));
  }

  /** The diagonal pair. */
  lemma DiagonalsAreOpposite(width: nat, height: nat, x: nat, y: nat)
    requires x < width && y < height
    ensures QuadrantInk('\U{259a}', width, height, x, y) != QuadrantInk('\U{259e}', width, height, x, y)
  {
    OppositeQuadrants('\U{259a}', '\U{259e}', width, height, x, y);
  }

  /** Counting from either end of the block gives complementary sextants. */
  lemma OppositeSextants(c: char, d: char, width: nat, height: nat, x: nat, y: nat)
    requires IsSextant(c) && IsSextant(d) && x < width && y < height
    requires c as int - 0x1fb00 == 0x1fb3b - d as int
    ensures SextantInk(c, width, height, x, y) != SextantInk(d, width, height, x, y)
  {
    SextantShowsItsPattern(c, width, height, x, y);
    SextantShowsItsPattern(d, width, height, x, y);
    OppositeBits(SextantPattern(c), SextantPattern(d), 6, SextantAt(width, height, x, y));
  }

  // ---- Telling characters apart ----

  ghost predicate QuadrantsLookAlike(c: char, d: char, width: nat, height: nat) {
    forall x, y :: 0 <= x < width && 0 <= y < height ==>
      (QuadrantInk(c, width, height, x, y) <==> QuadrantInk(d, width, height, x, y))
  }

  ghost predicate SextantsLookAlike(c: char, d: char, width: nat, height: nat) {
    forall x, y :: 0 <= x < width && 0 <= y < height ==>
      (SextantInk(c, width, height, x, y) <==> SextantInk(d, width, height, x, y))
  }

  /** Different patterns differ in some tile. */
  lemma {:induction false} DifferingBit(p: nat, q: nat, n: nat) returns (i: nat)
    requires p != q && p <= Ones(n) && q <= Ones(n)
    ensures i < n && Bit(p, i) != Bit(q, i)
  {
    if p % 2 != q % 2 {
      i := 0;
    } else {
      i := DifferingBit(p / 2, q / 2, n - 1);
      i := i + 1;
    }
  }

  /** The top left pixel of a tile. */
  lemma QuadrantCorner(width: nat, height: nat, tile: nat)
    requires width >= 2 && height >= 2 && tile < 4
    ensures var r := QuadrantTile(tile, width, height);
      && 0 <= r.x < width && 0 <= r.y < height
      && QuadrantAt(width, height, r.x, r.y) == tile
  {
  }

  lemma SextantCorner(width: nat, height: nat, tile: nat)
    requires width >= 2 && height >= 3 && tile < 6
    ensures var r := SextantTile(tile, width, height);
      && 0 <= r.x < width && 0 <= r.y < height
      && SextantAt(width, height, r.x, r.y) == tile
  {
    assert tile / 2 == 0 || tile / 2 == 1 || tile / 2 == 2;
  }

  /** Every quadrant is drawn differently exactly when each tile has a pixel. */
  lemma QuadrantsLookDifferentExactlyWhen(width: nat, height: nat)
    requires width > 0 && height > 0
    ensures (forall c, d :: IsQuadrant(c) && IsQuadrant(d) && c != d ==> !QuadrantsLookAlike(c, d, width, height))
       <==> width >= 2 && height >= 2
  {
    if width >= 2 && height >= 2 {
      forall c, d | IsQuadrant(c) && IsQuadrant(d) && c != d
        ensures !QuadrantsLookAlike(c, d, width, height)
      {
        var tile := DifferingBit(QuadrantPattern(c), QuadrantPattern(d), 4);
        QuadrantCorner(width, height, tile);
        var r := QuadrantTile(tile, width, height);
        QuadrantShowsItsPattern(c, width, height, r.x, r.y);
        QuadrantShowsItsPattern(d, width, height, r.x, r.y);
      }
    } else {
      // The lower right tile has no pixels.
      var c, d := '\U{2598}', '\U{259a}';
      forall x, y | 0 <= x < width && 0 <= y < height
        ensures QuadrantInk(c, width, height, x, y) <==> QuadrantInk(d, width, height, x, y)
      {
        QuadrantShowsItsPattern(c, width, height, x, y);
        QuadrantShowsItsPattern(d, width, height, x, y);
        Bits(QuadrantPattern(c));
        Bits(QuadrantPattern(d));
      }
      assert QuadrantsLookAlike(c, d, width, height);
    }
  }

  /** Where the bottom right tile has no pixels, lighting it changes nothing. */
  lemma SextantsConfused(width: nat, height: nat)
    requires width < 2 || height < 3
    ensures SextantsLookAlike('\U{1fb00}', '\U{1fb1f}', width, height)
  {
    forall x, y | 0 <= x < width && 0 <= y < height
      ensures SextantInk('\U{1fb00}', width, height, x, y) <==> SextantInk('\U{1fb1f}', width, height, x, y)
    {
      var tile := SextantAt(width, height, x, y);
      SextantShowsItsPattern('\U{1fb00}', width, height, x, y);
      SextantShowsItsPattern('\U{1fb1f}', width, height, x, y);
      Bits(1);
      Bits(33);
      assert tile < 5;
    }
  }

  /** And every sextant exactly when all three rows have one. */
  lemma SextantsLookDifferentExactlyWhen(width: nat, height: nat)
    requires width > 0 && height > 0
    ensures (forall c, d :: IsSextant(c) && IsSextant(d) && c != d ==> !SextantsLookAlike(c, d, width, height))
       <==> width >= 2 && height >= 3
  {
    if width >= 2 && height >= 3 {
      forall c, d | IsSextant(c) && IsSextant(d) && c != d
        ensures !SextantsLookAlike(c, d, width, height)
      {
        var tile := DifferingBit(SextantPattern(c), SextantPattern(d), 6);
        SextantCorner(width, height, tile);
        var r := SextantTile(tile, width, height);
        SextantShowsItsPattern(c, width, height, r.x, r.y);
        SextantShowsItsPattern(d, width, height, r.x, r.y);
      }
    } else {
      SextantsConfused(width, height);
    }
  }
}
