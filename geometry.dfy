module Wrappers {
  datatype Option<+T> = None | Some(value: T)
}

/** Landmark geometry shared by the web app and the stand-alone inference
    script: points in normalised image coordinates, Python's `int()` on a
    float, `min`/`max` over a list, the interleaved offset vector, pixel
    boxes and an opaque record of what has been drawn on a frame. */
module Geometry {
  import opened Wrappers

  /** One keypoint of a detected hand, in normalised image coordinates.
      The detector may report values slightly outside [0, 1], so no range
      is imposed. */
  datatype Landmark = Landmark(x: real, y: real)

  /** The landmark list the detector reports for one hand (21 points when
      the detector behaves). */
  type Hand = seq<Landmark>

  /** A pixel rectangle: (x1, y1) top-left and (x2, y2) bottom-right corner. */
  datatype BBox = BBox(x1: int, y1: int, x2: int, y2: int)

  /** The pixel margin both files add to (or subtract from) the box corners. */
  const Margin: int := 10

  /** Python's `int()` applied to a float: truncation toward zero (not floor),
      which matters for landmarks just left of or above the frame. */
  function Trunc(r: real): (n: int)
    ensures 0.0 <= r ==> 0 <= n && n as real <= r < n as real + 1.0
    ensures r < 0.0 ==> n <= 0 && n as real - 1.0 < r <= n as real
  {
    if 0.0 <= r then r.Floor else -((-r).Floor)
  }

  lemma TruncMonotone(a: real, b: real)
    requires a <= b
    ensures Trunc(a) <= Trunc(b)
  {
  }

  /** `int(v * size)`: a normalised coordinate turned into a pixel index of a
      side `size` pixels long. */
  function Pixel(v: real, size: nat): (p: int)
    ensures 0.0 <= v ==> 0 <= p
    ensures v <= 1.0 ==> p <= size
  {
    ScaleBounds(v, size);
    Trunc(v * size as real)
  }

  /** Scaling by a side length keeps a non-negative coordinate non-negative
      and one at most 1 at most the side length. */
  lemma ScaleBounds(v: real, size: nat)
    ensures 0.0 <= v ==> 0.0 <= v * size as real
    ensures v <= 1.0 ==> v * size as real <= size as real
  {
    if v <= 1.0 {
      assert (1.0 - v) * size as real >= 0.0;
    }
  }

  lemma PixelMonotone(a: real, b: real, size: nat)
    requires a <= b
    ensures Pixel(a, size) <= Pixel(b, size)
  {
    assert a * size as real <= b * size as real;
    TruncMonotone(a * size as real, b * size as real);
  }

  /** The value of Python's `min` over a non-empty list. */
  function Min(s: seq<real>): (m: real)
    requires |s| > 0
    ensures forall i :: 0 <= i < |s| ==> m <= s[i]
  {
    if |s| == 1 then s[0]
    else
      var rest := Min(s[1..]);
      if s[0] <= rest then s[0] else rest
  }

  /** The minimum is one of the list's values. It is a lemma rather than a
      postcondition of Min so that proofs which only need the bound do not
      pay for it. */
  lemma {:induction false} MinAttained(s: seq<real>)
    requires |s| > 0
    ensures exists i :: 0 <= i < |s| && s[i] == Min(s)
    decreases |s|
  {
    if |s| == 1 || s[0] <= Min(s[1..]) {
      assert s[0] == Min(s);
    } else {
      MinAttained(s[1..]);
      var i :| 0 <= i < |s| - 1 && s[1..][i] == Min(s[1..]);
      assert s[i + 1] == Min(s);
    }
  }

  /** The value of Python's `max` over a non-empty list. */
  function Max(s: seq<real>): (m: real)
    requires |s| > 0
    ensures forall i :: 0 <= i < |s| ==> s[i] <= m
  {
    if |s| == 1 then s[0]
    else
      var rest := Max(s[1..]);
      if rest <= s[0] then s[0] else rest
  }

  /** The maximum is one of the list's values. */
  lemma {:induction false} MaxAttained(s: seq<real>)
    requires |s| > 0
    ensures exists i :: 0 <= i < |s| && s[i] == Max(s)
    decreases |s|
  {
    if |s| == 1 || Max(s[1..]) <= s[0] {
      assert s[0] == Max(s);
    } else {
      MaxAttained(s[1..]);
      var i :| 0 <= i < |s| - 1 && s[1..][i] == Max(s[1..]);
      assert s[i + 1] == Max(s);
    }
  }

  /** The x coordinates of a hand, in landmark order (the list `x_`). */
  function Xs(h: Hand): (r: seq<real>)
    ensures |r| == |h|
  {
    seq(|h|, i requires 0 <= i < |h| => h[i].x)
  }

  /** The y coordinates of a hand, in landmark order (the list `y_`). */
  function Ys(h: Hand): (r: seq<real>)
    ensures |r| == |h|
  {
    seq(|h|, i requires 0 <= i < |h| => h[i].y)
  }

  lemma XsYsAppend(a: Hand, b: Hand)
    ensures Xs(a + b) == Xs(a) + Xs(b)
    ensures Ys(a + b) == Ys(a) + Ys(b)
  {
    assert forall i :: 0 <= i < |a + b| ==> Xs(a + b)[i] == (Xs(a) + Xs(b))[i];
    assert forall i :: 0 <= i < |a + b| ==> Ys(a + b)[i] == (Ys(a) + Ys(b))[i];
  }

  /** A stretch of a hand's coordinates is the coordinates of that stretch. */
  lemma XsYsSlice(h: Hand, i: nat, j: nat)
    requires i <= j <= |h|
    ensures Xs(h)[i..j] == Xs(h[i..j]) && Ys(h)[i..j] == Ys(h[i..j])
  {
  }

  /** The minimum of a list is at most, and its maximum at least, those of
      any non-empty stretch of it. */
  lemma MinMaxOfSlice(s: seq<real>, i: nat, j: nat)
    requires i < j <= |s|
    ensures Min(s) <= Min(s[i..j]) && Max(s[i..j]) <= Max(s)
  {
    var sub := s[i..j];
    MinAttained(sub);
    MaxAttained(sub);
    var a :| 0 <= a < |sub| && sub[a] == Min(sub);
    var b :| 0 <= b < |sub| && sub[b] == Max(sub);
    assert s[i + a] == sub[a] && s[i + b] == sub[b];
  }

  /** The feature entries a hand contributes when every x is measured from
      `mx` and every y from `my`: for each landmark in order, x - mx then
      y - my, exactly as the extraction loops append them. */
  function Offsets(h: Hand, mx: real, my: real): (r: seq<real>)
    ensures |r| == 2 * |h|
    decreases |h|
  {
    if h == [] then []
    else Offsets(h[..|h| - 1], mx, my) + [h[|h| - 1].x - mx, h[|h| - 1].y - my]
  }

  /** Entry 2i is landmark i's x offset and entry 2i+1 its y offset. */
  lemma {:induction false} OffsetsAt(h: Hand, mx: real, my: real, i: int)
    requires 0 <= i < |h|
    ensures |Offsets(h, mx, my)| == 2 * |h|
    ensures Offsets(h, mx, my)[2 * i] == h[i].x - mx
    ensures Offsets(h, mx, my)[2 * i + 1] == h[i].y - my
    decreases |h|
  {
    var init := h[..|h| - 1];
    if i < |h| - 1 {
      OffsetsAt(init, mx, my, i);
      assert init[i] == h[i];
    }
  }

  /** Measured from values no larger than any coordinate, every offset is
      non-negative. */
  lemma {:induction false} OffsetsNonNegative(h: Hand, mx: real, my: real)
    requires forall i :: 0 <= i < |h| ==> mx <= h[i].x && my <= h[i].y
    ensures forall k :: 0 <= k < |Offsets(h, mx, my)| ==> Offsets(h, mx, my)[k] >= 0.0
    decreases |h|
  {
    if h != [] {
      var init := h[..|h| - 1];
      assert forall i :: 0 <= i < |init| ==> init[i] == h[i];
      OffsetsNonNegative(init, mx, my);
    }
  }

  /** A frame as the pipeline sees it: its pixel size and, in order, the
      overlays that have been drawn on it. The pixels themselves are not
      modelled. */
  datatype Frame = Frame(height: nat, width: nat, marks: seq<Mark>)

  /** One drawing call on a frame: a hand's landmark skeleton, or a
      rectangle with its caption (the label, plus the confidence when the
      caption shows one) written above it. */
  datatype Mark =
    | Skeleton(hand: Hand)
    | LabelledBox(box: BBox, symbol: char, confidence: Option<real>)

  /** Draws one overlay on top of what the frame already shows. */
  function Draw(f: Frame, m: Mark): (g: Frame)
    ensures g.height == f.height && g.width == f.width
    ensures g.marks == f.marks + [m]
  {
    f.(marks := f.marks + [m])
  }
}
