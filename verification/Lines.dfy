/** Drawing the light and heavy lines into a cell of any size. */
module Lines {
  import opened Canvas
  import opened LineTables

  /** The thickness of a light stroke, from the cell's width. */
  function StrokeSize(width: nat): nat {
    Max(Rounded(width, 8), 1)
  }

  function Thickness(weight: Weight, width: nat): nat {
    match weight
    case Absent => 0
    case Light => StrokeSize(width)
    case Heavy => 2 * StrokeSize(width)
  }

  // ---- Where the arms meet ----

  /** Where the joint of two strokes across one side begins and ends. */
  function JointStart(side: nat, one: nat, other: nat): int {
    Min(BandStart(side, one), BandStart(side, other))
  }

  function JointEnd(side: nat, one: nat, other: nat): int {
    Max(BandEnd(side, one), BandEnd(side, other))
  }

  /** Position i on a side is reached by the arm from its start. */
  predicate InFirstArm(side: nat, one: nat, other: nat, i: int) {
    Spans(0, JointEnd(side, one, other), i)
  }

  predicate InSecondArm(side: nat, one: nat, other: nat, i: int) {
    Spans(JointStart(side, one, other), side - JointStart(side, one, other), i)
  }

  /** The pixels of a line character. */
  predicate Inked(a: Arms, width: nat, height: nat, x: int, y: int) {
    var left, right := Thickness(a.left, width), Thickness(a.right, width);
    var up, down := Thickness(a.up, width), Thickness(a.down, width);
    || (InBand(height, left, y) && InFirstArm(width, up, down, x))
    || (InBand(height, right, y) && InSecondArm(width, up, down, x))
    || (InBand(width, up, x) && InFirstArm(height, left, right, y))
    || (InBand(width, down, x) && InSecondArm(height, left, right, y))
  }

  /** Draw the arms of a character on a blank canvas of the cell's size. */
  method DrawArms(a: Arms, width: nat, height: nat) returns (canvas: Canvas)
    ensures canvas.Valid() && fresh(canvas) && fresh(canvas.buffer)
    ensures canvas.width == width && canvas.height == height
    ensures forall x: nat, y: nat :: canvas.Inside(x, y) ==>
      canvas.At(x, y) == if Inked(a, width, height, x, y) then FILL else 0
  {
    canvas := new Canvas(width, height);
    var left, right := Thickness(a.left, width), Thickness(a.right, width);
    var up, down := Thickness(a.up, width), Thickness(a.down, width);
    var sizeLeft := JointEnd(width, up, down);
    var startRight := JointStart(width, up, down);
    var sizeUp := JointEnd(height, left, right);
    var startDown := JointStart(height, left, right);
    BandIsCentred(width, up);
    BandIsCentred(width, down);
    canvas.DrawHLine(0, sizeLeft, left);
    canvas.DrawHLine(startRight, width - startRight, right);
    canvas.DrawVLine(0, sizeUp, up);
    canvas.DrawVLine(startDown, height - startDown, down);
  }

  method DrawLines(c: char, width: nat, height: nat) returns (canvas: Canvas)
    requires IsLine(c)
    ensures canvas.Valid() && fresh(canvas) && fresh(canvas.buffer)
    ensures canvas.width == width && canvas.height == height
    ensures forall x: nat, y: nat :: canvas.Inside(x, y) ==>
      canvas.At(x, y) == if Inked(ArmsOf(c), width, height, x, y) then FILL else 0
  {
    canvas := DrawArms(ArmsOf(c), width, height);
  }

  // ---- How much is inked ----

  /** A light stroke is an eighth of the cell's width, to the nearest pixel, and one
      pixel at least. */
  predicate IsLightStroke(width: nat, n: nat) {
    n >= 1 && (8 * n - 4 <= width < 8 * n + 4 || (n == 1 && width < 4))
  }

  function Pixels(weight: Weight, n: nat): nat {
    match weight
    case Absent => 0
    case Light => n
    case Heavy => n + n
  }

  lemma ThicknessIs(weight: Weight, width: nat, n: nat)
    requires IsLightStroke(width, n)
    ensures Thickness(weight, width) == Pixels(weight, n) && n >= 1
  {
  }

  /** As many rows or columns of a side, in its middle. */
  predicate InMiddle(side: nat, size: nat, i: int) {
    if size >= side then 0 <= i < side else (side - size) / 2 <= i < (side - size) / 2 + size
  }

  lemma BandIsTheMiddle(side: nat, size: nat, i: int)
    ensures InBand(side, size, i) <==> InMiddle(side, size, i)
  {
  }

  /** A line across the cell inks exactly the n middle rows of every column, n being
      the stroke's thickness, or twice it for a heavy line; U+2500 and U+2501. */
  lemma RowsOfALine(weight: Weight, width: nat, height: nat, n: nat, x: nat, y: nat)
    requires x < width && y < height && IsLightStroke(width, n)
    ensures Inked(Arms(weight, weight, Absent, Absent), width, height, x, y) <==> InMiddle(height, Pixels(weight, n), y)
  {
    ThicknessIs(weight, width, n);
    BandIsTheMiddle(height, Pixels(weight, n), y);
  }

  /** And a line down it, U+2502 and U+2503, the n middle columns of every row. */
  lemma ColumnsOfALine(weight: Weight, width: nat, height: nat, n: nat, x: nat, y: nat)
    requires x < width && y < height && IsLightStroke(width, n)
    ensures Inked(Arms(Absent, Absent, weight, weight), width, height, x, y) <==> InMiddle(width, Pixels(weight, n), x)
  {
    ThicknessIs(weight, width, n);
    BandIsTheMiddle(width, Pixels(weight, n), x);
  }

  /** The light lines U+2500 and U+2502 are n pixels thick, the heavy ones U+2501 and
      U+2503 twice that, in the middle of the cell and through all of it. */
  lemma LinesAreThisThick(width: nat, height: nat, n: nat, x: nat, y: nat)
    requires x < width && y < height && IsLightStroke(width, n)
    ensures Inked(ArmsOf('\U{2500}'), width, height, x, y) <==> InMiddle(height, n, y)
    ensures Inked(ArmsOf('\U{2501}'), width, height, x, y) <==> InMiddle(height, 2 * n, y)
    ensures Inked(ArmsOf('\U{2502}'), width, height, x, y) <==> InMiddle(width, n, x)
    ensures Inked(ArmsOf('\U{2503}'), width, height, x, y) <==> InMiddle(width, 2 * n, x)
  {
    StraightArms();
    RowsOfALine(Light, width, height, n, x, y);
    RowsOfALine(Heavy, width, height, n, x, y);
    ColumnsOfALine(Light, width, height, n, x, y);
    ColumnsOfALine(Heavy, width, height, n, x, y);
  }

  lemma StraightArms()
    ensures ArmsOf('\U{2500}') == Arms(Light, Light, Absent, Absent) && ArmsOf('\U{2501}') == Arms(Heavy, Heavy, Absent, Absent)
    ensures ArmsOf('\U{2502}') == Arms(Absent, Absent, Light, Light) && ArmsOf('\U{2503}') == Arms(Absent, Absent, Heavy, Heavy)
  {
  }

  function Thicker(a: Weight, b: Weight): Weight {
    if a.Heavy? || b.Heavy? then Heavy else if a.Light? || b.Light? then Light else Absent
  }

  /** A pixel on the near side of the far edge of the middle, or on the far side of
      its near edge. */
  predicate Within(side: nat, size: nat, first: bool, i: int) {
    if first then 2 * i < side + size - (side + size) % 2 else side - size - (side - size) % 2 <= 2 * i
  }

  /** A band and the two arms across it, against the thicker of their strokes. */
  lemma ArmsStop(side: nat, one: nat, other: nat, thicker: nat, i: int)
    requires one <= thicker && other <= thicker && (one == thicker || other == thicker)
    ensures InBand(side, one, i) ==> InMiddle(side, thicker, i) && Within(side, thicker, true, i) && Within(side, thicker, false, i)
    ensures 0 <= i < side && InFirstArm(side, one, other, i) ==> Within(side, thicker, true, i)
    ensures 0 <= i < side && InSecondArm(side, one, other, i) ==> Within(side, thicker, false, i)
  {
    BandIsCentred(side, one);
    BandIsCentred(side, other);
    ThinnerBandIsInside(side, one, thicker);
    ThinnerBandIsInside(side, other, thicker);
    BandIsTheMiddle(side, thicker, i);
  }

  lemma ThickerOf(a: Weight, b: Weight, n: nat)
    ensures var t := Pixels(Thicker(a, b), n);
            Pixels(a, n) <= t && Pixels(b, n) <= t && (Pixels(a, n) == t || Pixels(b, n) == t)
  {
  }

  lemma AbsentHasNoBand(side: nat, i: int)
    ensures !InBand(side, 0, i)
  {
  }

  /** Nothing else is inked: a pixel lies in a band of one of the arms, and where
      there is no arm, not beyond the stroke across. */
  lemma NothingElseIsInked(a: Arms, width: nat, height: nat, n: nat, x: nat, y: nat)
    requires x < width && y < height && IsLightStroke(width, n) && Inked(a, width, height, x, y)
    ensures || InMiddle(height, Pixels(Thicker(a.left, a.right), n), y)
            || InMiddle(width, Pixels(Thicker(a.up, a.down), n), x)
    ensures a.right.Absent? ==> Within(width, Pixels(Thicker(a.up, a.down), n), true, x)
    ensures a.left.Absent? ==> Within(width, Pixels(Thicker(a.up, a.down), n), false, x)
    ensures a.down.Absent? ==> Within(height, Pixels(Thicker(a.left, a.right), n), true, y)
    ensures a.up.Absent? ==> Within(height, Pixels(Thicker(a.left, a.right), n), false, y)
  {
    ThicknessIs(a.left, width, n);
    ThicknessIs(a.right, width, n);
    ThicknessIs(a.up, width, n);
    ThicknessIs(a.down, width, n);
    ThickerOf(a.left, a.right, n);
    ThickerOf(a.up, a.down, n);
    ArmsStop(width, Pixels(a.up, n), Pixels(a.down, n), Pixels(Thicker(a.up, a.down), n), x);
    ArmsStop(width, Pixels(a.down, n), Pixels(a.up, n), Pixels(Thicker(a.up, a.down), n), x);
    ArmsStop(height, Pixels(a.left, n), Pixels(a.right, n), Pixels(Thicker(a.left, a.right), n), y);
    ArmsStop(height, Pixels(a.right, n), Pixels(a.left, n), Pixels(Thicker(a.left, a.right), n), y);
    AbsentHasNoBand(height, y);
    AbsentHasNoBand(width, x);
  }

  // ---- No gaps ----

  /** The light stroke runs inside the heavy one. */
  lemma LightInsideHeavy(side: nat, width: nat, i: int)
    requires InBand(side, Thickness(Light, width), i)
    ensures InBand(side, Thickness(Heavy, width), i)
  {
    ThinnerBandIsInside(side, StrokeSize(width), 2 * StrokeSize(width));
  }

  function Thinner(a: Weight, b: Weight): Weight {
    if a.Absent? || b.Absent? then Absent
    else if a.Light? || b.Light? then Light
    else Heavy
  }

  /** The thinner of two arms runs inside both. */
  lemma ThinnerIsInBoth(side: nat, width: nat, one: Weight, other: Weight, i: int)
    requires InBand(side, Thickness(Thinner(one, other), width), i)
    ensures InBand(side, Thickness(one, width), i) && InBand(side, Thickness(other, width), i)
  {
    BandIsCentred(side, 0);
    ThinnerBandIsInside(side, StrokeSize(width), 2 * StrokeSize(width));
  }

  /** Opposite arms cover their side between them. */
  lemma ArmsCoverTheSide(side: nat, one: nat, other: nat, i: int)
    requires 0 <= i < side
    ensures InFirstArm(side, one, other, i) || InSecondArm(side, one, other, i)
  {
    BandIsCentred(side, one);
    BandIsCentred(side, other);
  }

  /** A row of the thinner of two opposite arms is inked from edge to edge. */
  lemma RowIsUnbroken(a: Arms, width: nat, height: nat, x: int, y: int)
    requires 0 <= x < width
    requires InBand(height, Thickness(Thinner(a.left, a.right), width), y)
    ensures Inked(a, width, height, x, y)
  {
    ThinnerIsInBoth(height, width, a.left, a.right, y);
    ArmsCoverTheSide(width, Thickness(a.up, width), Thickness(a.down, width), x);
  }

  lemma ColumnIsUnbroken(a: Arms, width: nat, height: nat, x: int, y: int)
    requires 0 <= y < height
    requires InBand(width, Thickness(Thinner(a.up, a.down), width), x)
    ensures Inked(a, width, height, x, y)
  {
    ThinnerIsInBoth(width, width, a.up, a.down, x);
    ArmsCoverTheSide(height, Thickness(a.left, width), Thickness(a.right, width), y);
  }

  function Horizontal(a: Arms, first: bool): Weight {
    if first then a.left else a.right
  }

  function Vertical(a: Arms, first: bool): Weight {
    if first then a.up else a.down
  }

  /** From a pixel to the edge an arm reaches, itself included. */
  predicate Toward(first: bool, from: int, i: int) {
    if first then i <= from else from <= i
  }

  /** Every row of a horizontal arm joins every column of a vertical one: ink
      runs from the edge along the row to the column, and on to the other
      edge. */
  lemma CornerIsJoined(a: Arms, width: nat, height: nat, left: bool, up: bool, x: int, y: int)
    requires InBand(width, Thickness(Vertical(a, up), width), x)
    requires InBand(height, Thickness(Horizontal(a, left), width), y)
    ensures forall i :: 0 <= i < width && Toward(left, x, i) ==> Inked(a, width, height, i, y)
    ensures forall i :: 0 <= i < height && Toward(up, y, i) ==> Inked(a, width, height, x, i)
  {
    forall i | 0 <= i < width && Toward(left, x, i)
      ensures Inked(a, width, height, i, y)
    {
      ArmReachesTheColumn(a, width, height, left, up, x, y, i);
    }
    forall i | 0 <= i < height && Toward(up, y, i)
      ensures Inked(a, width, height, x, i)
    {
      ArmReachesTheRow(a, width, height, left, up, x, y, i);
    }
  }

  lemma ArmReachesTheColumn(a: Arms, width: nat, height: nat, left: bool, up: bool, x: int, y: int, i: int)
    requires InBand(width, Thickness(Vertical(a, up), width), x)
    requires InBand(height, Thickness(Horizontal(a, left), width), y)
    requires 0 <= i < width && Toward(left, x, i)
    ensures Inked(a, width, height, i, y)
  {
    var one, other := Thickness(a.up, width), Thickness(a.down, width);
    BandIsCentred(width, one);
    BandIsCentred(width, other);
    assert JointStart(width, one, other) <= x < JointEnd(width, one, other);
  }

  lemma ArmReachesTheRow(a: Arms, width: nat, height: nat, left: bool, up: bool, x: int, y: int, i: int)
    requires InBand(width, Thickness(Vertical(a, up), width), x)
    requires InBand(height, Thickness(Horizontal(a, left), width), y)
    requires 0 <= i < height && Toward(up, y, i)
    ensures Inked(a, width, height, x, i)
  {
    var one, other := Thickness(a.left, width), Thickness(a.right, width);
    BandIsCentred(height, one);
    BandIsCentred(height, other);
    assert JointStart(height, one, other) <= y < JointEnd(height, one, other);
  }

  // ---- What the edges of a cell show ----

  /** Cells wide enough for a heavy vertical stroke to leave both side edges. */
  predicate SidesClear(width: nat) {
    4 <= width
  }

  predicate EndsClear(width: nat, height: nat) {
    2 * StrokeSize(width) + 2 <= height
  }

  /** A heavy stroke leaves a side's ends exactly when there is room. */
  lemma BandsLeaveTheEnds(side: nat, stroke: nat)
    requires stroke > 0 && side > 0
    ensures stroke + 2 <= side <==> !InBand(side, stroke, 0)
    ensures stroke + 2 <= side ==> !InBand(side, stroke, side - 1)
  {
  }

  lemma SidesClearMeans(width: nat)
    requires width > 0
    ensures SidesClear(width) <==> 2 * StrokeSize(width) + 2 <= width
  {
  }

  /** Neither end of a side carries a stroke across it. */
  lemma EndsFree(side: nat, width: nat, weight: Weight)
    requires side > 0 && 2 * StrokeSize(width) + 2 <= side
    ensures !InBand(side, Thickness(weight, width), 0)
    ensures !InBand(side, Thickness(weight, width), side - 1)
    ensures 0 < BandStart(side, Thickness(weight, width))
    ensures BandEnd(side, Thickness(weight, width)) < side
  {
    BandIsCentred(side, Thickness(weight, width));
    BandsLeaveTheEnds(side, 2 * StrokeSize(width));
    ThinnerBandIsInside(side, Thickness(weight, width), 2 * StrokeSize(width));
  }

  /** An arm inks its rows or columns up to its edge. */
  lemma ArmsReachTheirEdges(a: Arms, width: nat, height: nat, i: int)
    ensures width >= 2 && InBand(height, Thickness(a.left, width), i) ==> Inked(a, width, height, 0, i)
    ensures width >= 2 && InBand(height, Thickness(a.right, width), i) ==> Inked(a, width, height, width - 1, i)
    ensures height >= 2 && InBand(width, Thickness(a.up, width), i) ==> Inked(a, width, height, i, 0)
    ensures height >= 2 && InBand(width, Thickness(a.down, width), i) ==> Inked(a, width, height, i, height - 1)
  {
    BandIsCentred(width, Thickness(a.up, width));
    BandIsCentred(width, Thickness(a.down, width));
    BandIsCentred(height, Thickness(a.left, width));
    BandIsCentred(height, Thickness(a.right, width));
  }

  /** In a wide enough cell the side edges show the horizontal arms and nothing
      else. */
  lemma SidesShowTheArms(a: Arms, width: nat, height: nat, y: int)
    requires SidesClear(width) && 0 <= y < height
    ensures Inked(a, width, height, 0, y) <==> InBand(height, Thickness(a.left, width), y)
    ensures Inked(a, width, height, width - 1, y) <==> InBand(height, Thickness(a.right, width), y)
  {
    SidesClearMeans(width);
    EndsFree(width, width, a.up);
    EndsFree(width, width, a.down);
  }

  lemma EndsShowTheArms(a: Arms, width: nat, height: nat, x: int)
    requires EndsClear(width, height) && 0 <= x < width
    ensures Inked(a, width, height, x, 0) <==> InBand(width, Thickness(a.up, width), x)
    ensures Inked(a, width, height, x, height - 1) <==> InBand(width, Thickness(a.down, width), x)
  {
    EndsFree(height, width, a.left);
    EndsFree(height, width, a.right);
  }

  // ---- Seams between neighbouring cells ----

  /** Two cells side by side show the same rows on both sides of the seam. */
  ghost predicate SideSeam(a: Arms, b: Arms, width: nat, height: nat) {
    forall y :: 0 <= y < height ==>
      (Inked(a, width, height, width - 1, y) <==> Inked(b, width, height, 0, y))
  }

  ghost predicate EndSeam(a: Arms, b: Arms, width: nat, height: nat) {
    forall x :: 0 <= x < width ==>
      (Inked(a, width, height, x, height - 1) <==> Inked(b, width, height, x, 0))
  }

  /** The stroke two cells share at a seam is inked on both sides of it. */
  ghost predicate SideArmsMeet(a: Arms, b: Arms, width: nat, height: nat) {
    forall y :: InBand(height, Thickness(a.right, width), y) ==>
      Inked(a, width, height, width - 1, y) && Inked(b, width, height, 0, y)
  }

  ghost predicate EndArmsMeet(a: Arms, b: Arms, width: nat, height: nat) {
    forall x :: InBand(width, Thickness(a.down, width), x) ==>
      Inked(a, width, height, x, height - 1) && Inked(b, width, height, x, 0)
  }

  /** Facing arms of the same weight meet without a gap in every cell but those
      a single pixel wide. */
  lemma SideArmsMeetExactlyWhen(width: nat, height: nat)
    requires width > 0 && height > 0
    ensures (forall a: Arms, b: Arms :: a.right == b.left ==> SideArmsMeet(a, b, width, height))
       <==> width >= 2
  {
    if width >= 2 {
      forall a: Arms, b: Arms | a.right == b.left
        ensures SideArmsMeet(a, b, width, height)
      {
        forall y | InBand(height, Thickness(a.right, width), y)
          ensures Inked(a, width, height, width - 1, y) && Inked(b, width, height, 0, y)
        {
          ArmsReachTheirEdges(a, width, height, y);
          ArmsReachTheirEdges(b, width, height, y);
        }
      }
    } else {
      var a := Arms(Light, Absent, Absent, Absent);
      var b, y := Arms(Absent, Light, Absent, Absent), BandStart(height, StrokeSize(width));
      BandIsCentred(height, StrokeSize(width));
      assert InBand(height, Thickness(b.right, width), y) && !Inked(a, width, height, 0, y);
      assert !SideArmsMeet(b, a, width, height);
    }
  }

  lemma EndArmsMeetExactlyWhen(width: nat, height: nat)
    requires width > 0 && height > 0
    ensures (forall a: Arms, b: Arms :: a.down == b.up ==> EndArmsMeet(a, b, width, height))
       <==> height >= 2
  {
    if height >= 2 {
      forall a: Arms, b: Arms | a.down == b.up
        ensures EndArmsMeet(a, b, width, height)
      {
        forall x | InBand(width, Thickness(a.down, width), x)
          ensures Inked(a, width, height, x, height - 1) && Inked(b, width, height, x, 0)
        {
          ArmsReachTheirEdges(a, width, height, x);
          ArmsReachTheirEdges(b, width, height, x);
        }
      }
    } else {
      var a := Arms(Absent, Absent, Light, Absent);
      var b, x := Arms(Absent, Absent, Absent, Light), BandStart(width, StrokeSize(width));
      BandIsCentred(width, StrokeSize(width));
      assert InBand(width, Thickness(b.down, width), x) && !Inked(a, width, height, x, 0);
      assert !EndArmsMeet(b, a, width, height);
    }
  }

  /** Any two characters whose facing arms weigh the same meet exactly at every
      seam of a row of cells: true of exactly the cells at least four wide. */
  lemma SideSeamsAgreeExactlyWhen(width: nat, height: nat)
    requires width > 0 && height > 0
    ensures (forall a: Arms, b: Arms :: a.right == b.left ==> SideSeam(a, b, width, height))
       <==> SidesClear(width)
  {
    if SidesClear(width) {
      forall a: Arms, b: Arms | a.right == b.left
        ensures SideSeam(a, b, width, height)
      {
        forall y | 0 <= y < height
          ensures Inked(a, width, height, width - 1, y) <==> Inked(b, width, height, 0, y)
        {
          SidesShowTheArms(a, width, height, y);
          SidesShowTheArms(b, width, height, y);
        }
      }
    } else {
      var a, b := Arms(Light, Absent, Absent, Absent), Arms(Absent, Absent, Heavy, Heavy);
      SidesClearMeans(width);
      BandsLeaveTheEnds(width, 2 * StrokeSize(width));
      assert !Inked(a, width, height, width - 1, 0);
      assert Inked(b, width, height, 0, 0) by { ColumnIsUnbroken(b, width, height, 0, 0); }
      assert !SideSeam(a, b, width, height);
    }
  }

  /** The same for cells stacked on one another. */
  lemma EndSeamsAgreeExactlyWhen(width: nat, height: nat)
    requires width > 0 && height > 0
    ensures (forall a: Arms, b: Arms :: a.down == b.up ==> EndSeam(a, b, width, height))
       <==> EndsClear(width, height)
  {
    if EndsClear(width, height) {
      forall a: Arms, b: Arms | a.down == b.up
        ensures EndSeam(a, b, width, height)
      {
        forall x | 0 <= x < width
          ensures Inked(a, width, height, x, height - 1) <==> Inked(b, width, height, x, 0)
        {
          EndsShowTheArms(a, width, height, x);
          EndsShowTheArms(b, width, height, x);
        }
      }
    } else {
      var a, b := Arms(Absent, Absent, Light, Absent), Arms(Heavy, Heavy, Absent, Absent);
      BandsLeaveTheEnds(height, 2 * StrokeSize(width));
      assert !Inked(a, width, height, 0, height - 1);
      assert Inked(b, width, height, 0, 0) by { RowIsUnbroken(b, width, height, 0, 0); }
      assert !EndSeam(a, b, width, height);
    }
  }

  // ---- Telling characters apart ----

  ghost predicate LookAlike(c: char, d: char, width: nat, height: nat) {
    forall x, y :: 0 <= x < width && 0 <= y < height ==>
      (Inked(ArmsOf(c), width, height, x, y) <==> Inked(ArmsOf(d), width, height, x, y))
  }

  /** A stroke's row or column that tells its weight apart from another's. */
  lemma WeightsDiffer(side: nat, width: nat, one: Weight, other: Weight) returns (i: int)
    requires one != other && 2 * StrokeSize(width) + 2 <= side
    ensures 0 <= i < side
    ensures InBand(side, Thickness(one, width), i) != InBand(side, Thickness(other, width), i)
  {
    BandIsCentred(side, Thickness(one, width));
    BandIsCentred(side, Thickness(other, width));
    var s := BandStart(side, Thickness(one, width));
    var t := BandStart(side, Thickness(other, width));
    i := if s < t then s
         else if t < s then t
         else Min(BandEnd(side, Thickness(one, width)), BandEnd(side, Thickness(other, width)));
  }

  lemma ArmsAreVisible(c: char, d: char, width: nat, height: nat)
    requires SidesClear(width) && EndsClear(width, height)
    requires LookAlike(c, d, width, height)
    ensures ArmsOf(c) == ArmsOf(d)
  {
    var a, b := ArmsOf(c), ArmsOf(d);
    SidesClearMeans(width);
    if a.left != b.left {
      var y := WeightsDiffer(height, width, a.left, b.left);
      SidesShowTheArms(a, width, height, y);
      SidesShowTheArms(b, width, height, y);
    }
    if a.right != b.right {
      var y := WeightsDiffer(height, width, a.right, b.right);
      SidesShowTheArms(a, width, height, y);
      SidesShowTheArms(b, width, height, y);
    }
    if a.up != b.up {
      var x := WeightsDiffer(width, width, a.up, b.up);
      EndsShowTheArms(a, width, height, x);
      EndsShowTheArms(b, width, height, x);
    }
    if a.down != b.down {
      var x := WeightsDiffer(width, width, a.down, b.down);
      EndsShowTheArms(a, width, height, x);
      EndsShowTheArms(b, width, height, x);
    }
  }

  /** In a narrow cell the heavy vertical line swallows its left arm. */
  lemma NarrowCellsConfuse(width: nat, height: nat)
    requires 0 < width && !SidesClear(width)
    ensures LookAlike('\U{2503}', '\U{252b}', width, height)
  {
    var line, joined := Arms(Absent, Absent, Heavy, Heavy), Arms(Heavy, Absent, Heavy, Heavy);
    assert ArmsOf('\U{2503}') == line && ArmsOf('\U{252b}') == joined by {
      ArmsOfNamed(line);
      ArmsOfNamed(joined);
    }
    forall x, y | 0 <= x < width && 0 <= y < height
      ensures Inked(line, width, height, x, y) <==> Inked(joined, width, height, x, y)
    {
      assert BandStart(width, 2 * StrokeSize(width)) == 0;
    }
  }

  /** In a low cell the heavy horizontal line swallows its upper arm. */
  lemma LowCellsConfuse(width: nat, height: nat)
    requires 0 < height && !EndsClear(width, height)
    ensures LookAlike('\U{2501}', '\U{253b}', width, height)
  {
    var line, joined := Arms(Heavy, Heavy, Absent, Absent), Arms(Heavy, Heavy, Heavy, Absent);
    assert ArmsOf('\U{2501}') == line && ArmsOf('\U{253b}') == joined by {
      ArmsOfNamed(line);
      ArmsOfNamed(joined);
    }
    forall x, y | 0 <= x < width && 0 <= y < height
      ensures Inked(line, width, height, x, y) <==> Inked(joined, width, height, x, y)
    {
      assert BandStart(height, 2 * StrokeSize(width)) == 0;
    }
  }

  /** All line characters are drawn differently from one another exactly when a
      heavy stroke leaves the cell's edges free. */
  lemma LinesLookDifferentExactlyWhen(width: nat, height: nat)
    requires width > 0 && height > 0
    ensures (forall c, d :: IsLine(c) && IsLine(d) && c != d ==> !LookAlike(c, d, width, height))
       <==> SidesClear(width) && EndsClear(width, height)
  {
    if SidesClear(width) && EndsClear(width, height) {
      forall c, d | IsLine(c) && IsLine(d) && LookAlike(c, d, width, height)
        ensures c == d
      {
        ArmsAreVisible(c, d, width, height);
        NamedArmsOf(c);
        NamedArmsOf(d);
      }
    } else if !SidesClear(width) {
      NarrowCellsConfuse(width, height);
    } else {
      LowCellsConfuse(width, height);
    }
  }
}
