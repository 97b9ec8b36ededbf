/** Block elements that light tiles of a cell: the quadrants U+2596 to U+259F,
    two tiles by two, and the sextants U+1FB00 to U+1FB3B, two by three. */
module TileTables {

  // ---- Quadrants ----

  predicate IsQuadrant(c: char) {
    '\U{2596}' <= c <= '\U{259f}'
  }

  predicate UpperLeft(c: char) {
    c in {
      '\U{2598}', '\U{2599}', '\U{259a}', '\U{259b}', '\U{259c}'
    }
  }

  predicate UpperRight(c: char) {
    c in {
      '\U{259b}', '\U{259c}', '\U{259d}', '\U{259e}', '\U{259f}'
    }
  }

  predicate LowerLeft(c: char) {
    c in {
      '\U{2596}', '\U{2599}', '\U{259b}', '\U{259e}', '\U{259f}'
    }
  }

  predicate LowerRight(c: char) {
    c in {
      '\U{2597}', '\U{2599}', '\U{259a}', '\U{259c}', '\U{259f}'
    }
  }

  // ---- Sextants ----

  predicate IsSextant(c: char) {
    '\U{1fb00}' <= c <= '\U{1fb3b}'
  }

  predicate TopLeft(c: char) {
    c in {
      '\U{1fb00}', '\U{1fb02}', '\U{1fb04}', '\U{1fb06}', '\U{1fb08}', '\U{1fb0a}', '\U{1fb0c}',
      '\U{1fb0e}', '\U{1fb10}', '\U{1fb12}', '\U{1fb15}', '\U{1fb17}', '\U{1fb19}', '\U{1fb1b}',
      '\U{1fb1d}', '\U{1fb1f}', '\U{1fb21}', '\U{1fb23}', '\U{1fb25}', '\U{1fb27}', '\U{1fb28}',
      '\U{1fb2a}', '\U{1fb2c}', '\U{1fb2e}', '\U{1fb30}', '\U{1fb32}', '\U{1fb34}', '\U{1fb36}',
      '\U{1fb38}', '\U{1fb3a}'
    }
  }

  predicate TopRight(c: char) {
    c in {
      '\U{1fb01}', '\U{1fb02}', '\U{1fb05}', '\U{1fb06}', '\U{1fb09}', '\U{1fb0a}', '\U{1fb0d}',
      '\U{1fb0e}', '\U{1fb11}', '\U{1fb12}', '\U{1fb14}', '\U{1fb15}', '\U{1fb18}', '\U{1fb19}',
      '\U{1fb1c}', '\U{1fb1d}', '\U{1fb20}', '\U{1fb21}', '\U{1fb24}', '\U{1fb25}', '\U{1fb28}',
      '\U{1fb2b}', '\U{1fb2c}', '\U{1fb2f}', '\U{1fb30}', '\U{1fb33}', '\U{1fb34}', '\U{1fb37}',
      '\U{1fb38}', '\U{1fb3b}'
    }
  }

  predicate MidLeft(c: char) {
    c in {
      '\U{1fb03}', '\U{1fb04}', '\U{1fb05}', '\U{1fb06}', '\U{1fb0b}', '\U{1fb0c}', '\U{1fb0d}',
      '\U{1fb0e}', '\U{1fb13}', '\U{1fb14}', '\U{1fb15}', '\U{1fb1a}', '\U{1fb1b}', '\U{1fb1c}',
      '\U{1fb1d}', '\U{1fb22}', '\U{1fb23}', '\U{1fb24}', '\U{1fb25}', '\U{1fb29}', '\U{1fb2a}',
      '\U{1fb2b}', '\U{1fb2c}', '\U{1fb31}', '\U{1fb32}', '\U{1fb33}', '\U{1fb34}', '\U{1fb39}',
      '\U{1fb3a}', '\U{1fb3b}'
    }
  }

  predicate MidRight(c: char) {
    c in {
      '\U{1fb07}', '\U{1fb08}', '\U{1fb09}', '\U{1fb0a}', '\U{1fb0b}', '\U{1fb0c}', '\U{1fb0d}',
      '\U{1fb0e}', '\U{1fb16}', '\U{1fb17}', '\U{1fb18}', '\U{1fb19}', '\U{1fb1a}', '\U{1fb1b}',
      '\U{1fb1c}', '\U{1fb1d}', '\U{1fb26}', '\U{1fb27}', '\U{1fb28}', '\U{1fb29}', '\U{1fb2a}',
      '\U{1fb2b}', '\U{1fb2c}', '\U{1fb35}', '\U{1fb36}', '\U{1fb37}', '\U{1fb38}', '\U{1fb39}',
      '\U{1fb3a}', '\U{1fb3b}'
    }
  }

  predicate BottomLeft(c: char) {
    c in {
      '\U{1fb0f}', '\U{1fb10}', '\U{1fb11}', '\U{1fb12}', '\U{1fb13}', '\U{1fb14}', '\U{1fb15}',
      '\U{1fb16}', '\U{1fb17}', '\U{1fb18}', '\U{1fb19}', '\U{1fb1a}', '\U{1fb1b}', '\U{1fb1c}',
      '\U{1fb1d}', '\U{1fb2d}', '\U{1fb2e}', '\U{1fb2f}', '\U{1fb30}', '\U{1fb31}', '\U{1fb32}',
      '\U{1fb33}', '\U{1fb34}', '\U{1fb35}', '\U{1fb36}', '\U{1fb37}', '\U{1fb38}', '\U{1fb39}',
      '\U{1fb3a}', '\U{1fb3b}'
    }
  }

  predicate BottomRight(c: char) {
    c in {
      '\U{1fb1e}', '\U{1fb1f}', '\U{1fb20}', '\U{1fb21}', '\U{1fb22}', '\U{1fb23}', '\U{1fb24}',
      '\U{1fb25}', '\U{1fb26}', '\U{1fb27}', '\U{1fb28}', '\U{1fb29}', '\U{1fb2a}', '\U{1fb2b}',
      '\U{1fb2c}', '\U{1fb2d}', '\U{1fb2e}', '\U{1fb2f}', '\U{1fb30}', '\U{1fb31}', '\U{1fb32}',
      '\U{1fb33}', '\U{1fb34}', '\U{1fb35}', '\U{1fb36}', '\U{1fb37}', '\U{1fb38}', '\U{1fb39}',
      '\U{1fb3a}', '\U{1fb3b}'
    }
  }

  // ---- Patterns ----

  /** Tiles are counted row by row from the top left, left to right. */
  predicate QuadrantLights(c: char, tile: nat) {
    match tile
    case 0 => UpperLeft(c)
    case 1 => UpperRight(c)
    case 2 => LowerLeft(c)
    case 3 => LowerRight(c)
    case _ => false
  }

  predicate SextantLights(c: char, tile: nat) {
    match tile
    case 0 => TopLeft(c)
    case 1 => TopRight(c)
    case 2 => MidLeft(c)
    case 3 => MidRight(c)
    case 4 => BottomLeft(c)
    case 5 => BottomRight(c)
    case _ => false
  }

  predicate Bit(pattern: nat, i: nat) {
    if i == 0 then pattern % 2 == 1 else Bit(pattern / 2, i - 1)
  }

  /** The tiles a quadrant's Unicode name lists, as a binary number. */
  function QuadrantPattern(c: char): nat {
    match c
    case '\U{2596}' => 4
    case '\U{2597}' => 8
    case '\U{2598}' => 1
    case '\U{2599}' => 13
    case '\U{259a}' => 9
    case '\U{259b}' => 7
    case '\U{259c}' => 11
    case '\U{259d}' => 2
    case '\U{259e}' => 6
    case '\U{259f}' => 14
    case _ => 0
  }

  /** Sextants run through the patterns in order, but for the two halves of the
      cell, which have characters elsewhere, the blank and the full cell. */
  function SextantPattern(c: char): nat
    requires IsSextant(c)
  {
    var n := c as int - 0x1fb00;
    n + 1 + (if n >= 20 then 1 else 0) + (if n >= 40 then 1 else 0)
  }

  lemma Bits(p: nat)
    ensures Bit(p, 0) <==> p % 2 == 1
    ensures Bit(p, 1) <==> p / 2 % 2 == 1
    ensures Bit(p, 2) <==> p / 4 % 2 == 1
    ensures Bit(p, 3) <==> p / 8 % 2 == 1
    ensures Bit(p, 4) <==> p / 16 % 2 == 1
    ensures Bit(p, 5) <==> p / 32 % 2 == 1
  {
    assert p / 2 / 2 == p / 4 && p / 4 / 2 == p / 8 && p / 8 / 2 == p / 16 && p / 16 / 2 == p / 32;
    assert Bit(p / 16, 1) == Bit(p / 32, 0);
    assert Bit(p / 8, 2) == Bit(p / 16, 1) && Bit(p / 8, 1) == Bit(p / 16, 0);
    assert Bit(p / 4, 3) == Bit(p / 8, 2) && Bit(p / 4, 2) == Bit(p / 8, 1) && Bit(p / 4, 1) == Bit(p / 8, 0);
    assert Bit(p / 2, 4) == Bit(p / 4, 3) && Bit(p / 2, 3) == Bit(p / 4, 2) && Bit(p / 2, 2) == Bit(p / 4, 1);
  }

  lemma QuadrantLightsItsPattern(c: char, tile: nat)
    requires IsQuadrant(c) && tile < 4
    ensures QuadrantLights(c, tile) <==> Bit(QuadrantPattern(c), tile)
  {
    Bits(QuadrantPattern(c));
    UpperPatterns(c);
    LowerPatterns(c);
  }

  lemma UpperPatterns(c: char)
    requires IsQuadrant(c)
    ensures UpperLeft(c) <==> QuadrantPattern(c) % 2 == 1
    ensures UpperRight(c) <==> QuadrantPattern(c) / 2 % 2 == 1
  {
  }

  lemma LowerPatterns(c: char)
    requires IsQuadrant(c)
    ensures LowerLeft(c) <==> QuadrantPattern(c) / 4 % 2 == 1
    ensures LowerRight(c) <==> QuadrantPattern(c) / 8 % 2 == 1
  {
  }

  lemma TopLeftPattern(c: char)
    requires IsSextant(c)
    ensures TopLeft(c) <==> SextantPattern(c) % 2 == 1
  {
  }

  lemma TopRightPattern(c: char)
    requires IsSextant(c)
    ensures TopRight(c) <==> SextantPattern(c) / 2 % 2 == 1
  {
  }

  lemma MidLeftPattern(c: char)
    requires IsSextant(c)
    ensures MidLeft(c) <==> SextantPattern(c) / 4 % 2 == 1
  {
  }

  lemma MidRightPattern(c: char)
    requires IsSextant(c)
    ensures MidRight(c) <==> SextantPattern(c) / 8 % 2 == 1
  {
  }

  lemma BottomLeftPattern(c: char)
    requires IsSextant(c)
    ensures BottomLeft(c) <==> SextantPattern(c) / 16 % 2 == 1
  {
  }

  lemma BottomRightPattern(c: char)
    requires IsSextant(c)
    ensures BottomRight(c) <==> SextantPattern(c) / 32 % 2 == 1
  {
  }

  lemma SextantLightsItsPattern(c: char, tile: nat)
    requires IsSextant(c) && tile < 6
    ensures SextantLights(c, tile) <==> Bit(SextantPattern(c), tile)
  {
    Bits(SextantPattern(c));
    TopLeftPattern(c);
    TopRightPattern(c);
    MidLeftPattern(c);
    MidRightPattern(c);
    BottomLeftPattern(c);
    BottomRightPattern(c);
  }
}
