/** The pixel buffer of the built-in font: rows of grey levels in one flat
    array, painted through clipped rectangles. */
module Canvas {

  /** The grey level of a filled pixel. */
  const FILL: nat := 255

  // ---- Flat indices ----

  function Index(x: nat, y: nat, width: nat): nat {
    y * width + x
  }

  lemma RowsFit(y: nat, width: nat, height: nat)
    requires y < height
    ensures Index(width, y, width) <= width * height
  {
    assert (y + 1) * width <= height * width;
  }

  lemma IndexInRange(x: nat, y: nat, width: nat, height: nat)
    requires x < width && y < height
    ensures Index(x, y, width) < width * height
  {
    RowsFit(y, width, height);
  }

  lemma RowsAreApart(y: nat, row: nat, width: nat)
    requires y < row
    ensures Index(width, y, width) <= Index(0, row, width)
  {
    assert (y + 1) * width <= row * width;
  }

  /** A flat index lies in a slice of one row exactly when its pixel does. */
  lemma SliceOfARow(x: nat, y: nat, row: nat, lo: nat, hi: nat, width: nat)
    requires x < width && hi <= width
    ensures Index(lo, row, width) <= Index(x, y, width) < Index(hi, row, width)
       <==> y == row && lo <= x < hi
  {
    if y < row {
      RowsAreApart(y, row, width);
    } else if row < y {
      RowsAreApart(row, y, width);
    }
  }

  // ---- Rectangles ----

  datatype Rect = Rect(x: int, y: int, width: int, height: int)

  /** Conversion to an unsigned pixel position: negatives become zero. */
  function ToPosition(n: int): nat {
    if n < 0 then 0 else n
  }

  function Min(a: int, b: int): int {
    if a < b then a else b
  }

  function Max(a: int, b: int): int {
    if a < b then b else a
  }

  predicate Spans(start: int, size: int, i: int) {
    ToPosition(start) <= i < ToPosition(start + size)
  }

  predicate Covers(r: Rect, x: int, y: int) {
    Spans(r.x, r.width, x) && Spans(r.y, r.height, y)
  }

  /** What painting demands: a slice of a row never starts past its end. */
  predicate Drawable(r: Rect, width: nat, height: nat) {
    ToPosition(r.y) < Min(ToPosition(r.y + r.height), height)
    ==> ToPosition(r.x) <= Min(ToPosition(r.x + r.width), width)
  }

  // ---- Lines ----

  /** Half of an integer, truncated toward zero. */
  function Half(n: int): int {
    if n < 0 then -((-n) / 2) else n / 2
  }

  /** A quotient rounded to the nearest integer, halves away from zero. */
  function Rounded(n: nat, d: nat): nat
    requires d > 0
  {
    (2 * n + d) / (2 * d)
  }

  /** First and past-the-end position of a stroke centred on a side. */
  function BandStart(side: nat, stroke: nat): int {
    Max(Half(side - stroke), 0)
  }

  function BandEnd(side: nat, stroke: nat): int {
    Min(Half(side + stroke), side)
  }

  predicate InBand(side: nat, stroke: nat, i: int) {
    BandStart(side, stroke) <= i < BandEnd(side, stroke)
  }

  /** A stroke has its full thickness, or fills the side, and sits within a
      pixel of the middle. */
  lemma BandIsCentred(side: nat, stroke: nat)
    ensures 0 <= BandStart(side, stroke) <= BandEnd(side, stroke) <= side
    ensures BandEnd(side, stroke) - BandStart(side, stroke) == Min(stroke, side)
    ensures BandStart(side, stroke)
         <= side - BandEnd(side, stroke)
         <= BandStart(side, stroke) + 1
  {
  }

  lemma ThinnerBandIsInside(side: nat, thin: nat, thick: nat)
    requires thin <= thick
    ensures BandStart(side, thick) <= BandStart(side, thin)
    ensures BandEnd(side, thin) <= BandEnd(side, thick)
  {
  }

  class Canvas {
    const width: nat
    const height: nat
    const buffer: array<nat>

    ghost predicate Valid() {
      buffer.Length == width * height
    }

    predicate Inside(x: int, y: int) {
      0 <= x < width && 0 <= y < height
    }

    /** Pixels lie row by row, from the left. */
    function At(x: nat, y: nat): (level: nat)
      requires Valid() && Inside(x, y)
      reads buffer
      ensures y * width + x < buffer.Length && level == buffer[y * width + x]
    {
      IndexInRange(x, y, width, height);
      buffer[Index(x, y, width)]
    }

    constructor (width: nat, height: nat)
      ensures Valid() && fresh(buffer)
      ensures this.width == width && this.height == height
      ensures forall x: nat, y: nat :: Inside(x, y) ==> At(x, y) == 0
    {
      this.width, this.height := width, height;
      buffer := new nat[width * height](_ => 0);
      new;
      forall x: nat, y: nat | Inside(x, y)
        ensures At(x, y) == 0
      {
        IndexInRange(x, y, width, height);
      }
    }

    method FillSlice(from: nat, to: nat, color: nat)
      requires from <= to <= buffer.Length
      modifies buffer
      ensures forall i :: 0 <= i < buffer.Length ==>
        buffer[i] == if from <= i < to then color else old(buffer[i])
    {
      for i := from to to
        invariant forall k :: 0 <= k < buffer.Length ==>
          buffer[k] == if from <= k < i then color else old(buffer[k])
      {
        buffer[i] := color;
      }
    }

    method FillRow(row: nat, startX: nat, endX: nat, color: nat)
      requires Valid() && row < height && startX <= endX <= width
      modifies buffer
      ensures forall x: nat, y: nat :: Inside(x, y) ==>
        At(x, y) == if y == row && startX <= x < endX then color else old(At(x, y))
    {
      RowsFit(row, width, height);
      assert Index(startX, row, width) <= Index(endX, row, width) <= buffer.Length;
      FillSlice(Index(startX, row, width), Index(endX, row, width), color);
      forall x: nat, y: nat | Inside(x, y)
        ensures At(x, y) == if y == row && startX <= x < endX then color else old(At(x, y))
      {
        IndexInRange(x, y, width, height);
        SliceOfARow(x, y, row, startX, endX, width);
      }
    }

    method DrawRect(r: Rect, color: nat)
      requires Valid() && Drawable(r, width, height)
      modifies buffer
      ensures forall x: nat, y: nat :: Inside(x, y) ==>
        At(x, y) == if Covers(r, x, y) then color else old(At(x, y))
    {
      var startX, endX := ToPosition(r.x), Min(ToPosition(r.x + r.width), width);
      var startY, endY := ToPosition(r.y), Min(ToPosition(r.y + r.height), height);
      var row := startY;
      while row < endY
        invariant startY <= row <= Max(startY, endY)
        invariant forall x: nat, y: nat :: Inside(x, y) ==>
          At(x, y) == if Spans(r.x, r.width, x) && startY <= y < row then color else old(At(x, y))
      {
        FillRow(row, startX, endX, color);
        row := row + 1;
      }
    }

    method DrawHLine(x: int, size: int, stroke: nat)
      requires Valid() && (ToPosition(x) <= width && ToPosition(x) <= ToPosition(x + size))
      modifies buffer
      ensures forall px: nat, py: nat :: Inside(px, py) ==>
        At(px, py) == if Spans(x, size, px) && InBand(height, stroke, py) then FILL else old(At(px, py))
    {
      var start, end := BandStart(height, stroke), BandEnd(height, stroke);
      DrawRect(Rect(x, start, size, end - start), FILL);
    }

    method DrawVLine(y: int, size: int, stroke: nat)
      requires Valid()
      modifies buffer
      ensures forall px: nat, py: nat :: Inside(px, py) ==>
        At(px, py) == if InBand(width, stroke, px) && Spans(y, size, py) then FILL else old(At(px, py))
    {
      BandIsCentred(width, stroke);
      var start, end := BandStart(width, stroke), BandEnd(width, stroke);
      DrawRect(Rect(start, y, end - start, size), FILL);
    }
  }
}
