/** `preprocessImage` of assets/libs/tesseract.js: the scale factor chosen for
    the canvas, the canvas size it gives, and the grayscale threshold applied
    to the RGBA pixel buffer. Image decoding, the nearest-neighbour redraw and
    the PNG encoding are not modelled. */
module Preprocess {

  /** One channel value of a canvas `ImageData` buffer. */
  type Byte = x: int | 0 <= x < 256

  function MaxNat(a: nat, b: nat): nat {
    if a >= b then a else b
  }

  /** `Math.min(2, Math.max(1, 800 / Math.max(w, h)))`. A zero-sized image
      divides by zero, giving `Infinity` in JavaScript, and so the factor 2. */
  function Scale(w: nat, h: nat): (s: real)
    ensures 1.0 <= s <= 2.0
    ensures s == 2.0 <==> MaxNat(w, h) <= 400
    ensures s == 1.0 <==> MaxNat(w, h) >= 800
    ensures 400 < MaxNat(w, h) < 800 ==> s * MaxNat(w, h) as real == 800.0
  {
    var m := MaxNat(w, h);
    if m == 0 then 2.0
    else
      var q := 800.0 / m as real;
      var lower := if 1.0 >= q then 1.0 else q;
      ScaleCases(m, q);
      if 2.0 <= lower then 2.0 else lower
  }

  lemma ScaleCases(m: nat, q: real)
    requires m > 0 && q == 800.0 / m as real
    ensures q >= 2.0 <==> m <= 400
    ensures q <= 1.0 <==> m >= 800
    ensures q * m as real == 800.0
  {
  }

  /** A canvas dimension: assigning `w * scale` to `canvas.width` drops the fraction. */
  function CanvasSide(side: nat, s: real): int
    requires s >= 0.0
  {
    (side as real * s).Floor
  }

  /** The longer side is doubled up to 400 pixels, brought to exactly 800
      between 400 and 800, and left alone from 800 on; no side shrinks and
      none more than doubles. */
  lemma CanvasLongSide(w: nat, h: nat)
    ensures var m := MaxNat(w, h);
      CanvasSide(m, Scale(w, h)) == if m <= 400 then 2 * m else if m < 800 then 800 else m
    ensures w <= CanvasSide(w, Scale(w, h)) <= 2 * w
    ensures h <= CanvasSide(h, Scale(w, h)) <= 2 * h
  {
    var s := Scale(w, h);
    ScaledSide(w, s);
    ScaledSide(h, s);
    var m := MaxNat(w, h);
    if m <= 400 {
      assert m as real * s == (2 * m) as real;
    } else if m < 800 {
      assert m as real * s == 800.0;
    } else {
      assert m as real * s == m as real;
    }
  }

  lemma ScaledSide(side: nat, s: real)
    requires 1.0 <= s <= 2.0
    ensures side <= CanvasSide(side, s) <= 2 * side
  {
    var y := side as real * s;
    MulBounds(side as real, s, y);
    FloorBetween(side, y);
  }

  lemma FloorBetween(side: nat, x: real)
    requires side as real <= x <= 2.0 * side as real
    ensures side <= x.Floor <= 2 * side
  {
  }

  lemma MulBounds(x: real, s: real, y: real)
    requires x >= 0.0 && 1.0 <= s <= 2.0 && y == x * s
    ensures x <= y <= 2.0 * x
  {
  }

  /** `Math.round(0.299 * r + 0.587 * g + 0.114 * b)` with exact coefficients:
      rounding to nearest, halves up. */
  function Gray(r: Byte, g: Byte, b: Byte): (y: int)
    ensures 0 <= y <= 255
  {
    (299 * r + 587 * g + 114 * b + 500) / 1000
  }

  /** The gray level is the luminance rounded to the nearest integer, halves up. */
  lemma GrayRounds(r: Byte, g: Byte, b: Byte)
    ensures var y := Gray(r, g, b);
      (y as real) - 0.5 <= (299 * r + 587 * g + 114 * b) as real / 1000.0 < (y as real) + 0.5
  {
  }

  /** `gray > 128 ? 255 : 0`. */
  function Enhanced(r: Byte, g: Byte, b: Byte): (v: Byte)
    ensures v == 0 || v == 255
  {
    if Gray(r, g, b) > 128 then 255 else 0
  }

  /** The threshold in integer terms: a pixel turns white exactly when its
      weighted sum reaches 128.5 on the 0..255 scale. */
  lemma EnhancedThreshold(r: Byte, g: Byte, b: Byte)
    ensures Enhanced(r, g, b) == 255 <==> 299 * r + 587 * g + 114 * b >= 128500
  {
  }

  /** Brighter pixels are never turned black while darker ones turn white. */
  lemma EnhancedMonotone(r: Byte, g: Byte, b: Byte, r': Byte, g': Byte, b': Byte)
    requires r <= r' && g <= g' && b <= b'
    ensures Enhanced(r, g, b) <= Enhanced(r', g', b')
  {
    EnhancedThreshold(r, g, b);
    EnhancedThreshold(r', g', b');
  }

  /** One pixel after the loop body: R, G and B hold the enhanced value and
      alpha keeps its own. */
  function Pixel(r: Byte, g: Byte, b: Byte, a: Byte): seq<Byte> {
    var v := Enhanced(r, g, b);
    [v, v, v, a]
  }

  /** The whole buffer after the loop, pixel by pixel. */
  function ThresholdImage(data: seq<Byte>): (out: seq<Byte>)
    requires |data| % 4 == 0
    ensures |out| == |data|
    decreases |data|
  {
    if data == [] then []
    else Pixel(data[0], data[1], data[2], data[3]) + ThresholdImage(data[4..])
  }

  /** Thresholding works on each pixel independently. */
  lemma {:induction false} ThresholdAppend(a: seq<Byte>, b: seq<Byte>)
    requires |a| % 4 == 0 && |b| % 4 == 0
    ensures ThresholdImage(a + b) == ThresholdImage(a) + ThresholdImage(b)
    decreases |a|
  {
    if a == [] {
      assert a + b == b;
    } else {
      assert (a + b)[4..] == a[4..] + b;
      ThresholdAppend(a[4..], b);
    }
  }

  /** The loop of lines 162-173: for each pixel, write the enhanced value into
      R, G and B and leave alpha as it is. */
  method Threshold(data: seq<Byte>) returns (out: seq<Byte>)
    requires |data| % 4 == 0
    ensures |out| == |data|
    ensures forall p :: 0 <= p < |data| / 4 ==>
      && out[4 * p] == out[4 * p + 1] == out[4 * p + 2]
           == Enhanced(data[4 * p], data[4 * p + 1], data[4 * p + 2])
      && out[4 * p + 3] == data[4 * p + 3]
    ensures out == ThresholdImage(data)
  {
    out := data;
    var i := 0;
    while i < |data|
      invariant 0 <= i <= |data| && i % 4 == 0
      invariant |out| == |data|
      invariant out[..i] == ThresholdImage(data[..i])
      invariant out[i..] == data[i..]
    {
      NextPixelFits(i, |data|);
      var enhanced := Enhanced(out[i], out[i + 1], out[i + 2]);
      var next := out[i := enhanced][i + 1 := enhanced][i + 2 := enhanced];
      ThresholdStep(data, out, i, next);
      out := next;
      i := i + 4;
    }
    assert out == out[..i] && data == data[..i];
    ThresholdPixels(data);
  }

  /** A pixel that starts inside the buffer ends inside it. */
  lemma NextPixelFits(i: nat, n: nat)
    requires i < n && i % 4 == 0 && n % 4 == 0
    ensures i + 4 <= n && (i + 4) % 4 == 0
  {
  }

  /** One pass of the loop body extends the thresholded prefix by one pixel. */
  lemma ThresholdStep(data: seq<Byte>, out: seq<Byte>, i: nat, next: seq<Byte>)
    requires |data| % 4 == 0 && i % 4 == 0 && i + 4 <= |data| && |out| == |data|
    requires out[..i] == ThresholdImage(data[..i]) && out[i..] == data[i..]
    requires var v := Enhanced(out[i], out[i + 1], out[i + 2]);
      next == out[i := v][i + 1 := v][i + 2 := v]
    ensures next[..i + 4] == ThresholdImage(data[..i + 4]) && next[i + 4..] == data[i + 4..]
  {
    assert out[i..][..4] == data[i..][..4];
    assert next[..i + 4] == out[..i] + Pixel(data[i], data[i + 1], data[i + 2], data[i + 3]);
    assert data[..i + 4] == data[..i] + data[i..i + 4];
    ThresholdAppend(data[..i], data[i..i + 4]);
    assert next[i + 4..] == out[i + 4..];
  }

  /** Each pixel of the thresholded image is gray: R, G and B all hold the
      pixel's enhanced value, and alpha is kept. */
  lemma {:induction false} ThresholdPixels(data: seq<Byte>)
    requires |data| % 4 == 0
    ensures var out := ThresholdImage(data);
      forall p :: 0 <= p < |data| / 4 ==>
        && out[4 * p] == out[4 * p + 1] == out[4 * p + 2]
             == Enhanced(data[4 * p], data[4 * p + 1], data[4 * p + 2])
        && out[4 * p + 3] == data[4 * p + 3]
    decreases |data|
  {
    if data != [] {
      var out := ThresholdImage(data);
      var rest := data[4..];
      ThresholdPixels(rest);
      forall p | 0 <= p < |data| / 4
        ensures && out[4 * p] == out[4 * p + 1] == out[4 * p + 2]
                     == Enhanced(data[4 * p], data[4 * p + 1], data[4 * p + 2])
                && out[4 * p + 3] == data[4 * p + 3]
      {
        if p > 0 {
          var q := p - 1;
          assert 4 * p == 4 * q + 4;
          assert q < |rest| / 4;
        }
      }
    }
  }

  /** A black or a white pixel keeps its colour. */
  lemma EnhancedOfBlackWhite(v: Byte)
    requires v == 0 || v == 255
    ensures Enhanced(v, v, v) == v
  {
  }

  /** A black-and-white image passes the threshold unchanged: thresholding twice
      is thresholding once. */
  lemma {:induction false} ThresholdIdempotent(data: seq<Byte>)
    requires |data| % 4 == 0
    ensures ThresholdImage(ThresholdImage(data)) == ThresholdImage(data)
    decreases |data|
  {
    if data != [] {
      var px := Pixel(data[0], data[1], data[2], data[3]);
      var rest := ThresholdImage(data[4..]);
      ThresholdAppend(px, rest);
      EnhancedOfBlackWhite(px[0]);
      assert ThresholdImage(px) == px by {
        assert px[4..] == [];
      }
      ThresholdIdempotent(data[4..]);
    }
  }
}
