/** Fitting a raster into its cell box, and the bilinear resampling that gets it
    there, over exact real arithmetic. */
module Resample {
  import opened Digest
  import opened Options

  /** Round half away from zero, on non-negative values. */
  function Round(x: real): int {
    (x + 0.5).Floor
  }

  function AtLeastOne(n: int): nat {
    if n < 1 then 1 else n
  }

  // ---- Fitting ----

  datatype Placement = Placement(width: nat, height: nat, left: nat, top: nat)

  /** The scale at which the source just fits the box. */
  function FitScale(srcW: nat, srcH: nat, boxW: nat, boxH: nat): real
    requires srcW > 0 && srcH > 0
  {
    var byWidth, byHeight := boxW as real / srcW as real, boxH as real / srcH as real;
    if byWidth <= byHeight then byWidth else byHeight
  }

  function Scaled(side: nat, fit: real): real {
    side as real * fit
  }

  function Margin(box: nat, size: nat): nat {
    (if box < size then 0 else box - size) / 2
  }

  /** Whole-pixel size and offsets for a raster scaled to w by h. */
  function Placed(w: real, h: real, boxW: nat, boxH: nat): Placement {
    var width, height := AtLeastOne(Round(w)), AtLeastOne(Round(h));
    Placement(width, height, Margin(boxW, width), Margin(boxH, height))
  }

  /** Size and offsets of the fitted raster; nothing for an empty source. */
  function Fitted(srcW: nat, srcH: nat, boxW: nat, boxH: nat): Option<Placement> {
    if srcW == 0 || srcH == 0 then None
    else
      var fit := FitScale(srcW, srcH, boxW, boxH);
      Some(Placed(Scaled(srcW, fit), Scaled(srcH, fit), boxW, boxH))
  }

  /** Inside the box, filling one of its sides, within a pixel of centred. */
  predicate FillsBox(p: Placement, boxW: nat, boxH: nat) {
    && 1 <= p.width && p.left + p.width <= boxW
    && 1 <= p.height && p.top + p.height <= boxH
    && (p.width == boxW || p.height == boxH)
    && p.left <= boxW - p.width - p.left <= p.left + 1
    && p.top <= boxH - p.height - p.top <= p.top + 1
  }

  /** Half a pixel from the exact size, unless the side would have vanished. */
  predicate NearSize(p: Placement, w: real, h: real) {
    && (p.width == 1 || -0.5 <= p.width as real - w <= 0.5)
    && (p.height == 1 || -0.5 <= p.height as real - h <= 0.5)
  }

  lemma ScaleBack(a: real, b: real)
    requires b > 0.0
    ensures b * (a / b) == a
  {}

  lemma ScaleMonotone(s: real, a: real, b: real)
    requires s >= 0.0 && a <= b
    ensures s * a <= s * b
  {}

  lemma RoundOfWhole(n: nat, x: real)
    requires x <= n as real
    ensures Round(x) <= n && (x == n as real ==> Round(x) == n)
  {}

  /** The fitted raster lies inside the box, fills one of its dimensions, sits
      within a pixel of centred, and keeps the source's aspect. */
  lemma FittedFillsTheBox(srcW: nat, srcH: nat, boxW: nat, boxH: nat)
    requires srcW > 0 && srcH > 0 && boxW > 0 && boxH > 0
    ensures FillsBox(Fitted(srcW, srcH, boxW, boxH).value, boxW, boxH)
    ensures var fit := FitScale(srcW, srcH, boxW, boxH);
            NearSize(Fitted(srcW, srcH, boxW, boxH).value, Scaled(srcW, fit), Scaled(srcH, fit))
  {
    var fit := FitScale(srcW, srcH, boxW, boxH);
    FitScaleBounds(srcW, srcH, boxW, boxH);
    PlacedFits(Scaled(srcW, fit), Scaled(srcH, fit), boxW, boxH);
  }

  lemma PlacedFits(w: real, h: real, boxW: nat, boxH: nat)
    requires boxW > 0 && boxH > 0 && 0.0 <= w <= boxW as real && 0.0 <= h <= boxH as real
    requires w == boxW as real || h == boxH as real
    ensures FillsBox(Placed(w, h, boxW, boxH), boxW, boxH) && NearSize(Placed(w, h, boxW, boxH), w, h)
  {
    SideFits(w, boxW);
    SideFits(h, boxH);
  }

  lemma FitScaleBounds(srcW: nat, srcH: nat, boxW: nat, boxH: nat)
    requires srcW > 0 && srcH > 0 && boxW > 0 && boxH > 0
    ensures var fit := FitScale(srcW, srcH, boxW, boxH);
            var w, h := Scaled(srcW, fit), Scaled(srcH, fit);
            && 0.0 <= w <= boxW as real && 0.0 <= h <= boxH as real
            && (w == boxW as real || h == boxH as real)
  {
    var fit := FitScale(srcW, srcH, boxW, boxH);
    assert fit >= 0.0;
    ScaleBack(boxW as real, srcW as real);
    ScaleBack(boxH as real, srcH as real);
    ScaleMonotone(srcW as real, fit, boxW as real / srcW as real);
    ScaleMonotone(srcH as real, fit, boxH as real / srcH as real);
    ScaleMonotone(srcW as real, 0.0, fit);
    ScaleMonotone(srcH as real, 0.0, fit);
  }

  lemma SideFits(scaled: real, box: nat)
    requires box > 0 && 0.0 <= scaled <= box as real
    ensures var size := AtLeastOne(Round(scaled));
            && 1 <= size && Margin(box, size) + size <= box
            && Margin(box, size) <= box - size - Margin(box, size) <= Margin(box, size) + 1
            && (scaled == box as real ==> size == box)
            && (size == 1 || -0.5 <= size as real - scaled <= 0.5)
  {
    RoundOfWhole(box, scaled);
  }

  // ---- Sampling ----

  /** The source coordinate a destination coordinate falls on. */
  function Along(i: nat, src: nat, dst: nat): (s: real)
    requires dst > 0
    ensures s >= 0.0
  {
    var s := (i as real + 0.5) * (src as real / dst as real) - 0.5;
    if s < 0.0 then 0.0 else s
  }

  function Near(i: nat, src: nat, dst: nat): nat
    requires dst > 0
  {
    Along(i, src, dst).Floor
  }

  function Far(i: nat, src: nat, dst: nat): nat
    requires src > 0 && dst > 0
  {
    var n := Near(i, src, dst) + 1;
    if n < src - 1 then n else src - 1
  }

  function Weight(i: nat, src: nat, dst: nat): real
    requires dst > 0
  {
    Along(i, src, dst) - Near(i, src, dst) as real
  }

  function Texel(src: seq<byte>, srcW: nat, px: nat, py: nat, channel: nat): byte {
    var offset := (py * srcW + px) * 4 + channel;
    if offset < |src| then src[offset] else 0
  }

  function Mix(a: real, b: real, w: real): real {
    a * (1.0 - w) + b * w
  }

  function Clamp(n: int): byte {
    if n < 0 then 0 else if n > 255 then 255 else n
  }

  /** One channel of one destination pixel. */
  function Sample(src: seq<byte>, srcW: nat, srcH: nat, dstW: nat, dstH: nat, x: nat, y: nat, channel: nat): byte
    requires srcW > 0 && srcH > 0 && dstW > 0 && dstH > 0
  {
    var x0, x1, wx := Near(x, srcW, dstW), Far(x, srcW, dstW), Weight(x, srcW, dstW);
    var y0, y1, wy := Near(y, srcH, dstH), Far(y, srcH, dstH), Weight(y, srcH, dstH);
    var top := Mix(Texel(src, srcW, x0, y0, channel) as real, Texel(src, srcW, x1, y0, channel) as real, wx);
    var bottom := Mix(Texel(src, srcW, x0, y1, channel) as real, Texel(src, srcW, x1, y1, channel) as real, wx);
    Clamp(Round(Mix(top, bottom, wy)))
  }

  /** The byte at one offset of a resampled image, row by row, pixel by pixel. */
  function SampleAt(src: seq<byte>, srcW: nat, srcH: nat, dstW: nat, dstH: nat, offset: nat): byte
    requires srcW > 0 && srcH > 0 && dstW > 0 && dstH > 0
  {
    var pixel := offset / 4;
    Sample(src, srcW, srcH, dstW, dstH, pixel % dstW, pixel / dstW, offset % 4)
  }

  lemma OffsetParts(dstW: nat, x: nat, y: nat, channel: nat)
    requires x < dstW && channel < 4
    ensures var offset := (y * dstW + x) * 4 + channel;
            offset % 4 == channel && offset / 4 == y * dstW + x
    ensures (y * dstW + x) % dstW == x && (y * dstW + x) / dstW == y
  {
    DivModUnique(y * dstW + x, dstW, y, x);
  }

  method ScaleRgba(src: seq<byte>, srcW: nat, srcH: nat, dstW: nat, dstH: nat) returns (out: seq<byte>)
    requires srcW > 0 && srcH > 0 && dstW > 0 && dstH > 0
    ensures srcW == dstW && srcH == dstH ==> out == src
    ensures srcW != dstW || srcH != dstH ==>
              && |out| == dstW * dstH * 4
              && forall offset :: 0 <= offset < |out| ==> out[offset] == SampleAt(src, srcW, srcH, dstW, dstH, offset)
  {
    if srcW == dstW && srcH == dstH {
      return src;
    }
    var buffer := new byte[dstW * dstH * 4];
    for y := 0 to dstH
      invariant forall k :: 0 <= k < y * dstW * 4 && k < buffer.Length ==>
                  buffer[k] == SampleAt(src, srcW, srcH, dstW, dstH, k)
    {
      RowFits(y, dstW, dstH);
      for x := 0 to dstW
        invariant forall k :: 0 <= k < (y * dstW + x) * 4 ==>
                    buffer[k] == SampleAt(src, srcW, srcH, dstW, dstH, k)
      {
        ScalePixel(buffer, src, srcW, srcH, dstW, dstH, x, y, (y * dstW + x) * 4);
      }
    }
    out := buffer[..];
  }

  /** The four channels of one destination pixel, at offset `at`. */
  method ScalePixel(buffer: array<byte>, src: seq<byte>, srcW: nat, srcH: nat, dstW: nat, dstH: nat, x: nat, y: nat, at: nat)
    requires srcW > 0 && srcH > 0 && x < dstW && y < dstH
    requires at == (y * dstW + x) * 4 && at + 4 <= buffer.Length
    requires forall k :: 0 <= k < at ==> buffer[k] == SampleAt(src, srcW, srcH, dstW, dstH, k)
    modifies buffer
    ensures forall k :: 0 <= k < at + 4 ==> buffer[k] == SampleAt(src, srcW, srcH, dstW, dstH, k)
  {
    for channel := 0 to 4
      invariant forall k :: 0 <= k < at + channel ==> buffer[k] == SampleAt(src, srcW, srcH, dstW, dstH, k)
    {
      OffsetParts(dstW, x, y, channel);
      buffer[at + channel] := Sample(src, srcW, srcH, dstW, dstH, x, y, channel);
    }
  }

  lemma RowFits(y: nat, dstW: nat, dstH: nat)
    requires y < dstH
    ensures y * dstW + dstW == (y + 1) * dstW <= dstH * dstW
  {}

  // ---- What sampling guarantees ----

  /** Every source coordinate read along one axis exists, and its weight is a
      fraction. */
  lemma AxisStaysInside(i: nat, src: nat, dst: nat)
    requires src > 0 && i < dst
    ensures Near(i, src, dst) < src && Far(i, src, dst) < src
    ensures 0.0 <= Weight(i, src, dst) < 1.0
  {
    var ratio := src as real / dst as real;
    ScaleBack(src as real, dst as real);
    assert ratio > 0.0;
    ScaleMonotone(ratio, i as real + 0.5, dst as real - 0.5);
    assert ratio * (dst as real - 0.5) == dst as real * ratio - 0.5 * ratio;
    assert (i as real + 0.5) * ratio <= src as real - 0.5 * ratio;
    assert Along(i, src, dst) < src as real;
  }

  lemma TexelIsInside(src: seq<byte>, srcW: nat, srcH: nat, px: nat, py: nat, channel: nat)
    requires px < srcW && py < srcH && channel < 4 && |src| == srcW * srcH * 4
    ensures (py * srcW + px) * 4 + channel < |src|
  {
    RowFits(py, srcW, srcH);
  }

  lemma MixStaysBetween(a: real, b: real, w: real, lo: real, hi: real)
    requires 0.0 <= w <= 1.0 && lo <= a <= hi && lo <= b <= hi
    ensures lo <= Mix(a, b, w) <= hi
  {
    ProductNonNegative(w, b - lo);
    ProductNonNegative(w, hi - b);
    ProductNonNegative(1.0 - w, a - lo);
    ProductNonNegative(1.0 - w, hi - a);
    assert Mix(a, b, w) - lo == (1.0 - w) * (a - lo) + w * (b - lo);
    assert hi - Mix(a, b, w) == (1.0 - w) * (hi - a) + w * (hi - b);
  }

  lemma ProductNonNegative(a: real, b: real)
    requires a >= 0.0 && b >= 0.0
    ensures a * b >= 0.0
  {}

  /** A channel stays between bounds every source texel of it keeps. */
  ghost predicate ChannelWithin(src: seq<byte>, srcW: nat, srcH: nat, channel: nat, lo: byte, hi: byte) {
    forall px: nat, py: nat :: px < srcW && py < srcH ==> lo <= Texel(src, srcW, px, py, channel) <= hi
  }

  /** Resampling invents no colours: an output channel lies between the least and
      the greatest value of that channel in the source. */
  lemma SampleStaysWithin(src: seq<byte>, srcW: nat, srcH: nat, dstW: nat, dstH: nat,
                          x: nat, y: nat, channel: nat, lo: byte, hi: byte)
    requires srcW > 0 && srcH > 0 && x < dstW && y < dstH
    requires ChannelWithin(src, srcW, srcH, channel, lo, hi)
    ensures lo <= Sample(src, srcW, srcH, dstW, dstH, x, y, channel) <= hi
  {
    AxisStaysInside(x, srcW, dstW);
    AxisStaysInside(y, srcH, dstH);
    var x0, x1, wx := Near(x, srcW, dstW), Far(x, srcW, dstW), Weight(x, srcW, dstW);
    var y0, y1, wy := Near(y, srcH, dstH), Far(y, srcH, dstH), Weight(y, srcH, dstH);
    var a, b := Texel(src, srcW, x0, y0, channel) as real, Texel(src, srcW, x1, y0, channel) as real;
    var c, d := Texel(src, srcW, x0, y1, channel) as real, Texel(src, srcW, x1, y1, channel) as real;
    MixStaysBetween(a, b, wx, lo as real, hi as real);
    MixStaysBetween(c, d, wx, lo as real, hi as real);
    MixStaysBetween(Mix(a, b, wx), Mix(c, d, wx), wy, lo as real, hi as real);
  }

  // ---- Symmetry ----

  lemma MixSame(a: real, w: real)
    ensures Mix(a, a, w) == a
  {
  }

  lemma MixReversed(a: real, b: real, w: real)
    ensures Mix(b, a, 1.0 - w) == Mix(a, b, w)
  {
  }

  lemma MixSwap(a: real, b: real, c: real, d: real, u: real, v: real)
    ensures Mix(Mix(a, b, u), Mix(c, d, u), v) == Mix(Mix(a, c, v), Mix(b, d, v), u)
  {
    var p, q := 1.0 - u, 1.0 - v;
    assert (a * p + b * u) * q == a * p * q + b * u * q;
    assert (c * p + d * u) * v == c * p * v + d * u * v;
    assert (a * q + c * v) * p == a * p * q + c * p * v;
    assert (b * q + d * v) * u == b * u * q + d * u * v;
  }

  /** The same axis read from its other end. */
  lemma AxisMirrored(i: nat, src: nat, dst: nat)
    requires src > 0 && i < dst
    ensures var m := dst - 1 - i;
      || (Near(m, src, dst) == src - 1 - Far(i, src, dst) && Far(m, src, dst) == src - 1 - Near(i, src, dst)
          && Weight(m, src, dst) == 1.0 - Weight(i, src, dst))
      || (Near(m, src, dst) == src - 1 - Near(i, src, dst)
          && (Weight(m, src, dst) == 0.0 || Far(m, src, dst) == Near(m, src, dst))
          && (Weight(i, src, dst) == 0.0 || Far(i, src, dst) == Near(i, src, dst)))
  {
    var ratio := src as real / dst as real;
    var s, t := (i as real + 0.5) * ratio - 0.5, ((dst - 1 - i) as real + 0.5) * ratio - 0.5;
    ScaleBack(src as real, dst as real);
    assert s + t == dst as real * ratio - 1.0 == src as real - 1.0;
    ProductNonNegative(i as real + 0.5, ratio);
    ProductNonNegative((dst - 1 - i) as real + 0.5, ratio);
  }

  lemma MixMirrored(f: nat -> real, i: nat, src: nat, dst: nat)
    requires src > 0 && i < dst
    ensures var m := dst - 1 - i;
      Near(i, src, dst) < src && Far(i, src, dst) < src && Near(m, src, dst) < src && Far(m, src, dst) < src
      && Mix(f(src - 1 - Near(m, src, dst)), f(src - 1 - Far(m, src, dst)), Weight(m, src, dst))
         == Mix(f(Near(i, src, dst)), f(Far(i, src, dst)), Weight(i, src, dst))
  {
    var m := dst - 1 - i;
    AxisStaysInside(i, src, dst);
    AxisStaysInside(m, src, dst);
    AxisMirrored(i, src, dst);
    MixReversed(f(Near(i, src, dst)), f(Far(i, src, dst)), Weight(i, src, dst));
    MixSame(f(Near(i, src, dst)), Weight(i, src, dst));
    MixSame(f(Near(i, src, dst)), Weight(m, src, dst));
  }

  ghost predicate Mirrored(src: seq<byte>, other: seq<byte>, srcW: nat, srcH: nat, channel: nat) {
    forall px: nat, py: nat :: px < srcW && py < srcH ==>
      Texel(other, srcW, srcW - 1 - px, py, channel) == Texel(src, srcW, px, py, channel)
  }

  /** Mirroring the source mirrors the result: samples sit at pixel centres, and
      both edges are treated alike. */
  lemma SampleMirrors(src: seq<byte>, other: seq<byte>, srcW: nat, srcH: nat, dstW: nat, dstH: nat,
                      x: nat, y: nat, channel: nat)
    requires srcW > 0 && srcH > 0 && x < dstW && y < dstH
    requires Mirrored(src, other, srcW, srcH, channel)
    ensures Sample(other, srcW, srcH, dstW, dstH, dstW - 1 - x, y, channel)
         == Sample(src, srcW, srcH, dstW, dstH, x, y, channel)
  {
    var y0, y1 := Near(y, srcH, dstH), Far(y, srcH, dstH);
    AxisStaysInside(y, srcH, dstH);
    AxisStaysInside(dstW - 1 - x, srcW, dstW);
    MixMirrored((px: nat) => Texel(src, srcW, px, y0, channel) as real, x, srcW, dstW);
    MixMirrored((px: nat) => Texel(src, srcW, px, y1, channel) as real, x, srcW, dstW);
  }

  ghost predicate Transposed(src: seq<byte>, other: seq<byte>, srcW: nat, srcH: nat, channel: nat) {
    forall px: nat, py: nat :: px < srcW && py < srcH ==>
      Texel(other, srcH, py, px, channel) == Texel(src, srcW, px, py, channel)
  }

  /** Transposing the source transposes the result: both axes are resampled by
      the same rule, in either order. */
  lemma SampleTransposes(src: seq<byte>, other: seq<byte>, srcW: nat, srcH: nat, dstW: nat, dstH: nat,
                         x: nat, y: nat, channel: nat)
    requires srcW > 0 && srcH > 0 && x < dstW && y < dstH
    requires Transposed(src, other, srcW, srcH, channel)
    ensures Sample(other, srcH, srcW, dstH, dstW, y, x, channel)
         == Sample(src, srcW, srcH, dstW, dstH, x, y, channel)
  {
    var x0, x1, wx := Near(x, srcW, dstW), Far(x, srcW, dstW), Weight(x, srcW, dstW);
    var y0, y1, wy := Near(y, srcH, dstH), Far(y, srcH, dstH), Weight(y, srcH, dstH);
    AxisStaysInside(x, srcW, dstW);
    AxisStaysInside(y, srcH, dstH);
    MixSwap(Texel(src, srcW, x0, y0, channel) as real, Texel(src, srcW, x1, y0, channel) as real,
            Texel(src, srcW, x0, y1, channel) as real, Texel(src, srcW, x1, y1, channel) as real, wx, wy);
  }

  // ---- Ramps ----

  /** A surface that is straight along each axis. */
  datatype Ramp = Ramp(across: real, down: real, twist: real, base: real) {
    function At(x: real, y: real): real {
      (across + twist * y) * x + (down * y + base)
    }
  }

  /** Every byte of the channel, row by row and pixel by pixel, is the ramp's value. */
  ghost predicate IsRamp(src: seq<byte>, srcW: nat, srcH: nat, channel: nat, ramp: Ramp) {
    forall px: nat, py: nat :: px < srcW && py < srcH ==> IsOnRamp(src, srcW, px, py, channel, ramp)
  }

  predicate IsOnRamp(src: seq<byte>, srcW: nat, px: nat, py: nat, channel: nat, ramp: Ramp) {
    var offset := (py * srcW + px) * 4 + channel;
    offset < |src| && src[offset] as real == ramp.At(px as real, py as real)
  }

  /** The centre of a destination pixel, in source pixels counted from the centre
      of the first one; beyond the outermost centres it is the nearer of them. */
  function CentreOf(i: nat, src: nat, dst: nat): real
    requires src > 0 && dst > 0
  {
    var s := (i as real + 0.5) * (src as real / dst as real) - 0.5;
    if s < 0.0 then 0.0 else if s > (src - 1) as real then (src - 1) as real else s
  }

  /** Along one axis a line is read at the centre. */
  lemma MixOfLine(a: real, d: real, i: nat, src: nat, dst: nat)
    requires src > 0 && i < dst
    ensures Mix(a * Near(i, src, dst) as real + d, a * Far(i, src, dst) as real + d, Weight(i, src, dst))
         == a * CentreOf(i, src, dst) + d
  {
    var p, w := Near(i, src, dst) as real, Weight(i, src, dst);
    AxisStaysInside(i, src, dst);
    if Far(i, src, dst) == Near(i, src, dst) {
      MixSame(a * p + d, w);
    } else {
      assert Far(i, src, dst) as real == p + 1.0 && CentreOf(i, src, dst) == p + w;
      assert a * (p + 1.0) == a * p + a;
      assert (a * p + d) * (1.0 - w) == a * p - a * p * w + d - d * w;
      assert (a * p + a + d) * w == a * p * w + a * w + d * w;
      assert a * (p + w) == a * p + a * w;
    }
  }

  lemma RoundedIsNear(v: real)
    requires 0.0 <= v <= 255.0
    ensures -0.5 <= Clamp(Round(v)) as real - v <= 0.5
  {
  }

  lemma RowOfRamp(ramp: Ramp, i: nat, src: nat, dst: nat, y: real)
    requires src > 0 && i < dst
    ensures Mix(ramp.At(Near(i, src, dst) as real, y), ramp.At(Far(i, src, dst) as real, y), Weight(i, src, dst))
         == ramp.At(CentreOf(i, src, dst), y)
  {
    MixOfLine(ramp.across + ramp.twist * y, ramp.down * y + ramp.base, i, src, dst);
  }

  lemma ColumnOfRamp(ramp: Ramp, i: nat, src: nat, dst: nat, x: real)
    requires src > 0 && i < dst
    ensures Mix(ramp.At(x, Near(i, src, dst) as real), ramp.At(x, Far(i, src, dst) as real), Weight(i, src, dst))
         == ramp.At(x, CentreOf(i, src, dst))
  {
    MixOfLine(ramp.down + ramp.twist * x, ramp.across * x + ramp.base, i, src, dst);
    DownTheRamp(ramp, x, Near(i, src, dst) as real);
    DownTheRamp(ramp, x, Far(i, src, dst) as real);
    DownTheRamp(ramp, x, CentreOf(i, src, dst));
  }

  lemma DownTheRamp(ramp: Ramp, x: real, y: real)
    ensures ramp.At(x, y) == (ramp.down + ramp.twist * x) * y + (ramp.across * x + ramp.base)
  {
    assert (ramp.across + ramp.twist * y) * x == ramp.across * x + ramp.twist * x * y;
    assert (ramp.down + ramp.twist * x) * y == ramp.down * y + ramp.twist * x * y;
  }

  lemma MixOfBytes(a: byte, b: byte, c: byte, d: byte, u: real, v: real)
    requires 0.0 <= u <= 1.0 && 0.0 <= v <= 1.0
    ensures 0.0 <= Mix(Mix(a as real, b as real, u), Mix(c as real, d as real, u), v) <= 255.0
  {
    MixStaysBetween(a as real, b as real, u, 0.0, 255.0);
    MixStaysBetween(c as real, d as real, u, 0.0, 255.0);
    MixStaysBetween(Mix(a as real, b as real, u), Mix(c as real, d as real, u), v, 0.0, 255.0);
  }

  /** A ramp is resampled to itself: every byte of the result, row by row, is the
      ramp's value at the centre of its pixel, to within half a level. */
  lemma RampsAreReproduced(src: seq<byte>, srcW: nat, srcH: nat, dstW: nat, dstH: nat, x: nat, y: nat, channel: nat,
                           ramp: Ramp)
    requires srcW > 0 && srcH > 0 && x < dstW && y < dstH && channel < 4 && IsRamp(src, srcW, srcH, channel, ramp)
    ensures var offset, exact := (y * dstW + x) * 4 + channel, ramp.At(CentreOf(x, srcW, dstW), CentreOf(y, srcH, dstH));
            -0.5 <= SampleAt(src, srcW, srcH, dstW, dstH, offset) as real - exact <= 0.5
  {
    OffsetParts(dstW, x, y, channel);
    SampleOfRamp(src, srcW, srcH, dstW, dstH, x, y, channel, ramp);
  }

  lemma SampleOfRamp(src: seq<byte>, srcW: nat, srcH: nat, dstW: nat, dstH: nat, x: nat, y: nat, channel: nat, ramp: Ramp)
    requires srcW > 0 && srcH > 0 && x < dstW && y < dstH && IsRamp(src, srcW, srcH, channel, ramp)
    ensures var exact := ramp.At(CentreOf(x, srcW, dstW), CentreOf(y, srcH, dstH));
            -0.5 <= Sample(src, srcW, srcH, dstW, dstH, x, y, channel) as real - exact <= 0.5
  {
    var x0, x1, y0, y1 := Near(x, srcW, dstW), Far(x, srcW, dstW), Near(y, srcH, dstH), Far(y, srcH, dstH);
    var wx, wy, cx := Weight(x, srcW, dstW), Weight(y, srcH, dstH), CentreOf(x, srcW, dstW);
    AxisStaysInside(x, srcW, dstW);
    AxisStaysInside(y, srcH, dstH);
    assert IsOnRamp(src, srcW, x0, y0, channel, ramp) && IsOnRamp(src, srcW, x1, y0, channel, ramp);
    assert IsOnRamp(src, srcW, x0, y1, channel, ramp) && IsOnRamp(src, srcW, x1, y1, channel, ramp);
    MixOfBytes(Texel(src, srcW, x0, y0, channel), Texel(src, srcW, x1, y0, channel),
               Texel(src, srcW, x0, y1, channel), Texel(src, srcW, x1, y1, channel), wx, wy);
    RowOfRamp(ramp, x, srcW, dstW, y0 as real);
    RowOfRamp(ramp, x, srcW, dstW, y1 as real);
    ColumnOfRamp(ramp, y, srcH, dstH, cx);
    RoundedIsNear(ramp.At(cx, CentreOf(y, srcH, dstH)));
  }

  /** At equal sizes the general path would copy each texel, which is what the
      shortcut does outright. */
  lemma EqualSizesCopy(src: seq<byte>, w: nat, h: nat, x: nat, y: nat, channel: nat)
    requires x < w && y < h
    ensures Sample(src, w, h, w, h, x, y, channel) == Texel(src, w, x, y, channel)
  {
    AxisIdentity(x, w);
    AxisIdentity(y, h);
  }

  lemma AxisIdentity(i: nat, n: nat)
    requires i < n
    ensures Near(i, n, n) == i && Weight(i, n, n) == 0.0
  {
    assert n as real / n as real == 1.0;
  }

  /** So resampling to the source's own size is the identity on both paths. */
  lemma EqualSizesAreTheIdentity(src: seq<byte>, w: nat, h: nat, offset: nat)
    requires w > 0 && h > 0 && |src| == w * h * 4 && offset < |src|
    ensures SampleAt(src, w, h, w, h, offset) == src[offset]
  {
    var pixel := offset / 4;
    var x, y := pixel % w, pixel / w;
    assert pixel == y * w + x;
    assert pixel < w * h;
    if y >= h {
      ScaleUp(h, y, w);
    }
    EqualSizesCopy(src, w, h, x, y, offset % 4);
  }

  lemma ScaleUp(a: nat, b: nat, c: nat)
    requires a <= b
    ensures a * c <= b * c
  {}
}
