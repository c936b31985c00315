/** One pass of the stand-alone inference script's capture loop (the body of
    its `while True`). Unlike the web app, it resets `data_aux`, `x_` and
    `y_` once per frame rather than once per hand, so with several hands the
    features and the box mix all of them; its box also subtracts the margin
    from the bottom-right corner instead of adding it. The camera frame (or
    its absence), the detector's hands and the classifier's `predict` are
    inputs. */
module Inference {
  import opened Wrappers
  import opened Geometry
  import opened Labels
  import App

  /** What one pass of the loop ends with. */
  datatype Pass =
    /** `cap.read()` failed: the loop breaks. */
    | CaptureFailed
    /** An exception reached the outer handler at line 116: the loop breaks. */
    | Aborted
    /** The frame handed to `imshow`, `data_aux`, the box and the predicted
        symbol of this pass (None where the pass computed none). */
    | Shown(frame: Frame, features: seq<real>, box: Option<BBox>, symbol: Option<char>)

  /** All landmarks of all hands, in the order the loops visit them. */
  function Flatten(hands: seq<Hand>): (all: Hand)
    decreases |hands|
  {
    if hands == [] then [] else Flatten(hands[..|hands| - 1]) + hands[|hands| - 1]
  }

  /** Lines 75-86: `data_aux` after the loop over hands. Each hand's entries
      are measured from the minimum over every landmark collected so far in
      the frame, this hand's included. */
  function CrossFeatures(hands: seq<Hand>): (f: seq<real>)
    ensures |f| == 2 * |Flatten(hands)|
    decreases |hands|
  {
    if hands == [] then []
    else
      var all := Flatten(hands);
      var last := hands[|hands| - 1];
      if all == [] then CrossFeatures(hands[..|hands| - 1])
      else CrossFeatures(hands[..|hands| - 1]) + Offsets(last, Min(Xs(all)), Min(Ys(all)))
  }

  /** Lines 89-92: the box over every landmark of every hand, with the margin
      subtracted from all four corners. */
  function FrameBox(hands: seq<Hand>, width: nat, height: nat): (b: BBox)
    requires Flatten(hands) != []
    ensures b.x1 <= b.x2 && b.y1 <= b.y2
    ensures var hb := App.HandBox(Flatten(hands), width, height);
      b == BBox(hb.x1, hb.y1, hb.x2 - 2 * Margin, hb.y2 - 2 * Margin)
  {
    var all := Flatten(hands);
    assert Min(Xs(all)) <= Xs(all)[0] <= Max(Xs(all));
    assert Min(Ys(all)) <= Ys(all)[0] <= Max(Ys(all));
    PixelMonotone(Min(Xs(all)), Max(Xs(all)), width);
    PixelMonotone(Min(Ys(all)), Max(Ys(all)), height);
    BBox(Pixel(Min(Xs(all)), width) - Margin,
         Pixel(Min(Ys(all)), height) - Margin,
         Pixel(Max(Xs(all)), width) - Margin,
         Pixel(Max(Ys(all)), height) - Margin)
  }

  /** Lines 65-72: every hand's skeleton drawn on the frame, in order. */
  function DrawSkeletons(f: Frame, hands: seq<Hand>): (g: Frame)
    ensures g.width == f.width && g.height == f.height
    ensures |g.marks| == |f.marks| + |hands|
    decreases |hands|
  {
    if hands == [] then f else Draw(DrawSkeletons(f, hands[..|hands| - 1]), Skeleton(hands[|hands| - 1]))
  }

  /** Lines 45-104 as a function of the captured frame (None when `ret` is
      False), the detector's hands and the classifier's `predict`, which
      yields `int(prediction[0])` or None when it raises. */
  function PassSpec(capture: Option<Frame>, hands: seq<Hand>, predict: seq<real> -> Option<int>): (r: Pass)
    ensures r == CaptureFailed <==> capture.None?
    ensures r.Shown? ==> r.frame.width == capture.value.width && r.frame.height == capture.value.height
    ensures r.Shown? ==> (r.box.Some? <==> hands != []) && (r.symbol.Some? ==> r.box.Some?)
    ensures r.Shown? ==> |r.features| == 2 * |Flatten(hands)|
  {
    match capture
    case None => CaptureFailed
    case Some(f) =>
      if hands == [] then Shown(f, [], None, None)
      else if Flatten(hands) == [] then Aborted
      else
        var drawn := DrawSkeletons(f, hands);
        var features := CrossFeatures(hands);
        var box := FrameBox(hands, f.width, f.height);
        var symbol := (match predict(features) case None => None case Some(c) => LookupStrict(c));
        Shown(if symbol.Some? then Draw(drawn, LabelledBox(box, symbol.value, None)) else drawn,
              features, Some(box), symbol)
  }

  /** Lines 76-80: one hand's coordinates appended to `x_` and `y_`. */
  method AppendCoordinates(xs0: seq<real>, ys0: seq<real>, hand: Hand) returns (xs: seq<real>, ys: seq<real>)
    ensures xs == xs0 + Xs(hand) && ys == ys0 + Ys(hand)
  {
    xs, ys := xs0, ys0;
    for i := 0 to |hand|
      invariant xs == xs0 + Xs(hand[..i]) && ys == ys0 + Ys(hand[..i])
    {
      XsYsAppend(hand[..i], [hand[i]]);
      assert hand[..i + 1] == hand[..i] + [hand[i]];
      xs := xs + [hand[i].x];
      ys := ys + [hand[i].y];
    }
    assert hand[..|hand|] == hand;
  }

  /** Lines 82-86: one hand's entries appended to `data_aux`, each measured
      from the minimum of the lists collected so far (re-read for every
      entry; the lists do not change meanwhile). */
  method AppendOffsets(dataAux0: seq<real>, hand: Hand, xs: seq<real>, ys: seq<real>) returns (dataAux: seq<real>)
    requires |hand| > 0 ==> |xs| > 0 && |ys| > 0
    ensures |hand| > 0 ==> dataAux == dataAux0 + Offsets(hand, Min(xs), Min(ys))
    ensures |hand| == 0 ==> dataAux == dataAux0
  {
    dataAux := dataAux0;
    ghost var mx := if xs == [] then 0.0 else Min(xs);
    ghost var my := if ys == [] then 0.0 else Min(ys);
    for i := 0 to |hand|
      invariant dataAux == dataAux0 + Offsets(hand[..i], mx, my)
    {
      assert hand[..i + 1][..i] == hand[..i];
      dataAux := dataAux + [hand[i].x - Min(xs), hand[i].y - Min(ys)];
    }
    assert hand[..|hand|] == hand;
  }

  /** How one more hand extends the cross-hand features. */
  lemma CrossFeaturesExtend(hands: seq<Hand>, k: nat)
    requires k < |hands|
    ensures Flatten(hands[..k + 1]) == Flatten(hands[..k]) + hands[k]
    ensures Flatten(hands[..k + 1]) == [] ==> CrossFeatures(hands[..k + 1]) == CrossFeatures(hands[..k])
    ensures Flatten(hands[..k + 1]) != [] ==>
      CrossFeatures(hands[..k + 1]) == CrossFeatures(hands[..k])
        + Offsets(hands[k], Min(Xs(Flatten(hands[..k + 1]))), Min(Ys(Flatten(hands[..k + 1]))))
  {
    assert hands[..k + 1][..k] == hands[..k];
  }

  /** Lines 46-48 and 75-86: the lists `data_aux`, `x_` and `y_`, reset once
      for the frame and then extended hand after hand. */
  method CollectFeatures(hands: seq<Hand>) returns (dataAux: seq<real>, xs: seq<real>, ys: seq<real>)
    ensures xs == Xs(Flatten(hands)) && ys == Ys(Flatten(hands))
    ensures dataAux == CrossFeatures(hands)
  {
    dataAux, xs, ys := [], [], [];
    for k := 0 to |hands|
      invariant xs == Xs(Flatten(hands[..k])) && ys == Ys(Flatten(hands[..k]))
      invariant dataAux == CrossFeatures(hands[..k])
    {
      var hand := hands[k];
      CrossFeaturesExtend(hands, k);
      XsYsAppend(Flatten(hands[..k]), hand);
      xs, ys := AppendCoordinates(xs, ys, hand);
      dataAux := AppendOffsets(dataAux, hand, xs, ys);
    }
    assert hands[..|hands|] == hands;
  }

  /** Lines 65-72: the skeleton of every detected hand drawn on the frame. */
  method DrawHands(frame0: Frame, hands: seq<Hand>) returns (frame: Frame)
    ensures frame == DrawSkeletons(frame0, hands)
  {
    frame := frame0;
    for k := 0 to |hands|
      invariant frame == DrawSkeletons(frame0, hands[..k])
    {
      assert hands[..k + 1][..k] == hands[..k];
      frame := Draw(frame, Skeleton(hands[k]));
    }
    assert hands[..|hands|] == hands;
  }

  /** Lines 45-104: one pass of the capture loop, proved to compute
      PassSpec. */
  method RunPass(capture: Option<Frame>, hands: seq<Hand>, predict: seq<real> -> Option<int>)
    returns (r: Pass)
    ensures r == PassSpec(capture, hands, predict)
  {
    if capture.None? {
      return CaptureFailed;
    }
    var frame := capture.value;
    var height, width := frame.height, frame.width;
    if hands == [] {
      return Shown(frame, [], None, None);
    }
    frame := DrawHands(frame, hands);
    var dataAux, xs, ys := CollectFeatures(hands);
    if |xs| == 0 {
      return Aborted;
    }
    assert Flatten(hands) != [];
    var x1 := Pixel(Min(xs), width) - Margin;
    var y1 := Pixel(Min(ys), height) - Margin;
    var x2 := Pixel(Max(xs), width) - Margin;
    var y2 := Pixel(Max(ys), height) - Margin;
    assert BBox(x1, y1, x2, y2) == FrameBox(hands, width, height);
    var symbol: Option<char> := None;
    var prediction := predict(dataAux);
    if prediction.Some? {
      symbol := LookupStrict(prediction.value);
      if symbol.Some? {
        frame := Draw(frame, LabelledBox(BBox(x1, y1, x2, y2), symbol.value, None));
      }
    }
    r := Shown(frame, dataAux, Some(BBox(x1, y1, x2, y2)), symbol);
  }

  /** Flatten keeps every hand's landmarks, hand after hand. */
  lemma {:induction false} FlattenAt(hands: seq<Hand>, k: nat, i: nat)
    requires k < |hands| && i < |hands[k]|
    ensures |Flatten(hands[..k])| + i < |Flatten(hands)|
    ensures Flatten(hands)[|Flatten(hands[..k])| + i] == hands[k][i]
    decreases |hands|
  {
    var n := |hands| - 1;
    var init := hands[..n];
    if k < n {
      assert init[..k] == hands[..k];
      FlattenAt(init, k, i);
    } else {
      assert hands[..k] == init;
    }
  }

  /** No landmark at all is collected exactly when every hand is empty. */
  lemma {:induction false} FlattenEmpty(hands: seq<Hand>)
    ensures Flatten(hands) == [] <==> forall i :: 0 <= i < |hands| ==> |hands[i]| == 0
    decreases |hands|
  {
    if hands != [] {
      var init := hands[..|hands| - 1];
      FlattenEmpty(init);
      assert forall i :: 0 <= i < |init| ==> init[i] == hands[i];
    }
  }

  /** k hands of 21 landmarks give 21k landmarks. */
  lemma {:induction false} FlattenUniform(hands: seq<Hand>)
    requires forall i :: 0 <= i < |hands| ==> |hands[i]| == 21
    ensures |Flatten(hands)| == 21 * |hands|
    decreases |hands|
  {
    if hands != [] {
      var init := hands[..|hands| - 1];
      assert forall i :: 0 <= i < |init| ==> init[i] == hands[i];
      FlattenUniform(init);
    }
  }

  /** Since the lists are reset per frame, not per hand, k hands of 21
      landmarks leave 42k entries in `data_aux`. */
  lemma CrossFeaturesPerFrame(hands: seq<Hand>)
    requires forall i :: 0 <= i < |hands| ==> |hands[i]| == 21
    ensures |CrossFeatures(hands)| == 42 * |hands|
  {
    FlattenUniform(hands);
  }

  /** Later hands only append: the entries of the first j hands are those
      they had before the later hands were seen. */
  lemma {:induction false} CrossFeaturesPrefix(hands: seq<Hand>, j: nat)
    requires j <= |hands|
    ensures 2 * |Flatten(hands[..j])| <= |CrossFeatures(hands)|
    ensures CrossFeatures(hands[..j]) == CrossFeatures(hands)[..2 * |Flatten(hands[..j])|]
    decreases |hands|
  {
    if j == |hands| {
      assert hands[..j] == hands;
    } else {
      var init := hands[..|hands| - 1];
      assert init[..j] == hands[..j];
      CrossFeaturesPrefix(init, j);
      CrossFeaturesExtend(hands, |hands| - 1);
      assert hands[..|hands|] == hands;
    }
  }

  /** The entries of hand k are its offsets from the minimum over every
      landmark of hands 0 to k: a running minimum of `x_` and `y_`. */
  lemma CrossFeaturesSegment(hands: seq<Hand>, k: nat)
    requires k < |hands| && hands[k] != []
    ensures Flatten(hands[..k + 1]) != []
    ensures 2 * |Flatten(hands[..k])| + 2 * |hands[k]| <= |CrossFeatures(hands)|
    ensures CrossFeatures(hands)[2 * |Flatten(hands[..k])|..2 * |Flatten(hands[..k])| + 2 * |hands[k]|]
      == Offsets(hands[k], Min(Xs(Flatten(hands[..k + 1]))), Min(Ys(Flatten(hands[..k + 1]))))
  {
    var seen := Flatten(hands[..k + 1]);
    var own := Offsets(hands[k], Min(Xs(seen)), Min(Ys(seen)));
    var whole, upto, before := CrossFeatures(hands), CrossFeatures(hands[..k + 1]), CrossFeatures(hands[..k]);
    assert seen == Flatten(hands[..k]) + hands[k] && upto == before + own by {
      CrossFeaturesExtend(hands, k);
    }
    assert upto == whole[..|upto|] by {
      CrossFeaturesPrefix(hands, k + 1);
    }
    SegmentOf(whole, upto, before, own, 2 * |Flatten(hands[..k])|, 2 * |hands[k]|);
  }

  /** The segment that follows `before` in a prefix of `whole`. */
  lemma SegmentOf<T>(whole: seq<T>, upto: seq<T>, before: seq<T>, own: seq<T>, start: nat, len: nat)
    requires |upto| <= |whole| && upto == whole[..|upto|]
    requires upto == before + own
    requires start == |before| && len == |own|
    ensures start + len <= |whole| && whole[start..start + len] == own
  {
    assert forall p :: |before| <= p < |upto| ==> whole[p] == upto[p];
  }

  /** Entry by entry: landmark i of hand k, measured from the running
      minimum. */
  lemma CrossFeaturesRunningMinimum(hands: seq<Hand>, k: nat, i: nat)
    requires k < |hands| && i < |hands[k]|
    ensures Flatten(hands[..k + 1]) != []
    ensures 2 * |Flatten(hands[..k])| + 2 * i + 1 < |CrossFeatures(hands)|
    ensures CrossFeatures(hands)[2 * |Flatten(hands[..k])| + 2 * i]
         == hands[k][i].x - Min(Xs(Flatten(hands[..k + 1])))
    ensures CrossFeatures(hands)[2 * |Flatten(hands[..k])| + 2 * i + 1]
         == hands[k][i].y - Min(Ys(Flatten(hands[..k + 1])))
  {
    CrossFeaturesSegment(hands, k);
    var seen := Flatten(hands[..k + 1]);
    var base := 2 * |Flatten(hands[..k])|;
    var own := Offsets(hands[k], Min(Xs(seen)), Min(Ys(seen)));
    OffsetsAt(hands[k], Min(Xs(seen)), Min(Ys(seen)), i);
    SliceAt(CrossFeatures(hands), base, own, 2 * i);
    SliceAt(CrossFeatures(hands), base, own, 2 * i + 1);
  }

  /** Entry j of a stretch starting at `base` is entry base + j of the whole. */
  lemma SliceAt(whole: seq<real>, base: nat, own: seq<real>, j: nat)
    requires base + |own| <= |whole| && whole[base..base + |own|] == own
    requires j < |own|
    ensures whole[base + j] == own[j]
  {
    assert whole[base..base + |own|][j] == own[j];
  }

  /** With a single hand the script computes exactly the web app's feature
      vector. */
  lemma CrossFeaturesOneHand(h: Hand)
    ensures CrossFeatures([h]) == App.Features(h)
  {
    assert [h][..0] == [];
    assert Flatten([h]) == h;
    if h != [] {
      var own := Offsets(h, Min(Xs(h)), Min(Ys(h)));
      assert CrossFeatures([h]) == CrossFeatures([]) + own;
      assert CrossFeatures([]) + own == own;
    }
  }

  /** The first hand's entries are its own web-app features. */
  lemma CrossFeaturesFirstHand(hands: seq<Hand>)
    requires hands != []
    ensures 2 * |hands[0]| <= |CrossFeatures(hands)|
    ensures CrossFeatures(hands)[..2 * |hands[0]|] == App.Features(hands[0])
  {
    CrossFeaturesPrefix(hands, 1);
    assert hands[..1] == [hands[0]];
    CrossFeaturesOneHand(hands[0]);
    assert [hands[0]][..0] == [];
  }

  /** Every entry is still non-negative: the running minimum never exceeds a
      collected coordinate. */
  lemma {:induction false} CrossFeaturesNonNegative(hands: seq<Hand>)
    ensures forall k :: 0 <= k < |CrossFeatures(hands)| ==> CrossFeatures(hands)[k] >= 0.0
    decreases |hands|
  {
    if hands != [] {
      var n := |hands| - 1;
      var init := hands[..n];
      CrossFeaturesNonNegative(init);
      CrossFeaturesExtend(hands, n);
      assert hands[..n + 1] == hands;
      var all := Flatten(hands);
      var last := hands[n];
      if all != [] {
        forall i | 0 <= i < |last|
          ensures Min(Xs(all)) <= last[i].x && Min(Ys(all)) <= last[i].y
        {
          var at := |Flatten(init)| + i;
          assert all[at] == last[i];
          assert Xs(all)[at] == last[i].x && Ys(all)[at] == last[i].y;
        }
        OffsetsNonNegative(last, Min(Xs(all)), Min(Ys(all)));
      }
    }
  }

  /** Features blend across hands: when the first hand lies further left, the
      second hand's entries are not its own web-app features. */
  lemma CrossFeaturesBlendHands(h1: Hand, h2: Hand)
    requires h1 != [] && h2 != []
    requires Min(Xs(h1)) < Min(Xs(h2))
    ensures |CrossFeatures([h1, h2])| == 2 * |h1| + 2 * |h2|
    ensures CrossFeatures([h1, h2])[..2 * |h1|] == App.Features(h1)
    ensures CrossFeatures([h1, h2])[2 * |h1|..] != App.Features(h2)
  {
    var hands := [h1, h2];
    var all := h1 + h2;
    TwoHands(h1, h2);
    CrossFeaturesFirstHand(hands);
    var whole := CrossFeatures(hands);
    var second := Offsets(h2, Min(Xs(all)), Min(Ys(all)));
    assert whole[2 * |h1|..] == second by {
      CrossFeaturesSegment(hands, 1);
    }
    assert Min(Xs(all)) < Min(Xs(h2)) by {
      ExtremesOfStretch(all, h1, 0);
    }
    OffsetsShiftedOrigin(h2, Min(Xs(all)), Min(Ys(all)), Min(Xs(h2)), Min(Ys(h2)));
  }

  /** The prefixes of a two-hand frame, flattened. */
  lemma TwoHands(h1: Hand, h2: Hand)
    ensures [h1, h2][..1] == [h1] && [h1, h2][..2] == [h1, h2]
    ensures Flatten([h1, h2][..1]) == h1 && Flatten([h1, h2][..2]) == h1 + h2
    ensures Flatten([h1, h2]) == h1 + h2
  {
    assert [h1][..0] == [];
    assert [h1, h2][..1] == [h1];
  }

  /** Offsets of a non-empty hand from two different x origins differ. */
  lemma OffsetsShiftedOrigin(h: Hand, mx: real, my: real, mx': real, my': real)
    requires h != [] && mx != mx'
    ensures Offsets(h, mx, my) != Offsets(h, mx', my')
  {
    OffsetsAt(h, mx, my, 0);
    OffsetsAt(h, mx', my', 0);
  }

  /** Lines 89-92 with a single hand: the same top-left corner as the web
      app's box, but the bottom-right corner 20 pixels further up and left,
      because the margin is subtracted there too. */
  lemma FrameBoxOneHand(h: Hand, width: nat, height: nat)
    requires h != []
    ensures Flatten([h]) != []
    ensures FrameBox([h], width, height)
         == BBox(App.HandBox(h, width, height).x1, App.HandBox(h, width, height).y1,
                 App.HandBox(h, width, height).x2 - 2 * Margin, App.HandBox(h, width, height).y2 - 2 * Margin)
  {
    assert [h][..0] == [];
    assert Flatten([h]) == h;
  }

  /** The box spans every hand: its top-left corner is at or beyond every
      hand's web-app corner, and adding back twice the margin reaches every
      hand's web-app bottom-right corner. */
  lemma FrameBoxCoversHand(hands: seq<Hand>, k: nat, width: nat, height: nat)
    requires k < |hands| && hands[k] != []
    ensures Flatten(hands) != []
    ensures FrameBox(hands, width, height).x1 <= App.HandBox(hands[k], width, height).x1
    ensures FrameBox(hands, width, height).y1 <= App.HandBox(hands[k], width, height).y1
    ensures FrameBox(hands, width, height).x2 + 2 * Margin >= App.HandBox(hands[k], width, height).x2
    ensures FrameBox(hands, width, height).y2 + 2 * Margin >= App.HandBox(hands[k], width, height).y2
  {
    var h := hands[k];
    var all := Flatten(hands);
    FlattenSegment(hands, k);
    ExtremesOfStretch(all, h, |Flatten(hands[..k])|);
    PixelMonotone(Min(Xs(all)), Min(Xs(h)), width);
    PixelMonotone(Min(Ys(all)), Min(Ys(h)), height);
    PixelMonotone(Max(Xs(h)), Max(Xs(all)), width);
    PixelMonotone(Max(Ys(h)), Max(Ys(all)), height);
  }

  /** The extremes of a stretch of landmarks lie within those of the whole
      list. */
  lemma ExtremesOfStretch(all: Hand, h: Hand, start: nat)
    requires h != [] && start + |h| <= |all| && all[start..start + |h|] == h
    ensures all != []
    ensures Min(Xs(all)) <= Min(Xs(h)) && Max(Xs(h)) <= Max(Xs(all))
    ensures Min(Ys(all)) <= Min(Ys(h)) && Max(Ys(h)) <= Max(Ys(all))
  {
    XsYsSlice(all, start, start + |h|);
    MinMaxOfSlice(Xs(all), start, start + |h|);
    MinMaxOfSlice(Ys(all), start, start + |h|);
  }

  /** The landmarks of the first j hands lead the flattened list. */
  lemma {:induction false} FlattenPrefix(hands: seq<Hand>, j: nat)
    requires j <= |hands|
    ensures |Flatten(hands[..j])| <= |Flatten(hands)|
    ensures Flatten(hands[..j]) == Flatten(hands)[..|Flatten(hands[..j])|]
    decreases |hands|
  {
    if j == |hands| {
      assert hands[..j] == hands;
    } else {
      var init := hands[..|hands| - 1];
      assert init[..j] == hands[..j];
      FlattenPrefix(init, j);
    }
  }

  /** Hand k occupies its own stretch of the flattened landmarks. */
  lemma FlattenSegment(hands: seq<Hand>, k: nat)
    requires k < |hands|
    ensures |Flatten(hands[..k])| + |hands[k]| <= |Flatten(hands)|
    ensures Flatten(hands)[|Flatten(hands[..k])|..|Flatten(hands[..k])| + |hands[k]|] == hands[k]
  {
    CrossFeaturesExtend(hands, k);
    FlattenPrefix(hands, k + 1);
    SegmentOf(Flatten(hands), Flatten(hands[..k + 1]), Flatten(hands[..k]), hands[k], |Flatten(hands[..k])|, |hands[k]|);
  }

  /** The skeleton overlays, one per hand, in detector order. */
  function Skeletons(hands: seq<Hand>): (ms: seq<Mark>)
  {
    seq(|hands|, i requires 0 <= i < |hands| => Skeleton(hands[i]))
  }

  /** Drawing the skeletons appends one overlay per hand and keeps the size. */
  lemma {:induction false} DrawSkeletonsMarks(f: Frame, hands: seq<Hand>)
    ensures DrawSkeletons(f, hands).marks == f.marks + Skeletons(hands)
    ensures DrawSkeletons(f, hands).width == f.width && DrawSkeletons(f, hands).height == f.height
    decreases |hands|
  {
    if hands != [] {
      var init := hands[..|hands| - 1];
      DrawSkeletonsMarks(f, init);
      assert Skeletons(hands) == Skeletons(init) + [Skeleton(hands[|hands| - 1])];
    }
  }

  /** Without hands nothing is computed or drawn. A frame with hands aborts
      the loop exactly when none of them has a landmark. */
  lemma PassOutcome(f: Frame, hands: seq<Hand>, predict: seq<real> -> Option<int>)
    ensures hands == [] ==> PassSpec(Some(f), hands, predict) == Shown(f, [], None, None)
    ensures PassSpec(Some(f), hands, predict) == Aborted <==>
      hands != [] && forall i :: 0 <= i < |hands| ==> |hands[i]| == 0
  {
    FlattenEmpty(hands);
  }

  /** With hands that have landmarks (so the pass is shown, by PassOutcome),
      a symbol is shown exactly when `predict` answers with one of the
      classes 1 to 6; any other class makes `labels_dict[...]` raise, and
      then only the skeletons are drawn. */
  lemma PassSymbol(f: Frame, hands: seq<Hand>, predict: seq<real> -> Option<int>)
    requires Flatten(hands) != []
    ensures PassSpec(Some(f), hands, predict).Shown?
    ensures PassSpec(Some(f), hands, predict).box == Some(FrameBox(hands, f.width, f.height))
    ensures PassSpec(Some(f), hands, predict).features == CrossFeatures(hands)
    ensures PassSpec(Some(f), hands, predict).symbol.Some? <==>
      predict(CrossFeatures(hands)).Some? && 1 <= predict(CrossFeatures(hands)).value <= 6
    ensures PassSpec(Some(f), hands, predict).symbol.Some? ==>
      PassSpec(Some(f), hands, predict).symbol.value == Alphabet[predict(CrossFeatures(hands)).value - 1]
    ensures PassSpec(Some(f), hands, predict).frame.marks
         == f.marks + Skeletons(hands)
            + (if PassSpec(Some(f), hands, predict).symbol.Some?
               then [LabelledBox(PassSpec(Some(f), hands, predict).box.value,
                                 PassSpec(Some(f), hands, predict).symbol.value, None)]
               else [])
  {
    DrawSkeletonsMarks(f, hands);
  }
}
