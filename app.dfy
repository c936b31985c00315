/** The web app's frame processor (`process_frame`) and the response rule of
    its single-shot `/classify` endpoint. The hand detector's output for the
    frame is an input, and so is the loaded classifier. */
module App {
  import opened Wrappers
  import opened Geometry
  import opened Labels

  /** The classifier loaded at startup: nothing when the model file was
      missing, otherwise its `predict_proba`, which maps one feature vector
      to a probability vector, or to None when it raises. */
  datatype Model =
    | Unavailable
    | Loaded(predictProba: seq<real> -> Option<seq<real>>)

  /** What `process_frame` ends with. */
  datatype Outcome =
    /** `frame is None`: the four-tuple (None, None, None, None). */
    | NoFrame
    /** An exception left `process_frame` (it was raised outside the inner try). */
    | Raised
    /** The annotated frame, `predicted_char`, `confidence` and `bbox`. */
    | Done(frame: Frame, predicted: Option<char>, confidence: real, bbox: Option<BBox>)

  /** The feature-vector length the classifier was trained on: 21 landmarks
      times two axes. */
  const FeatureLength: nat := 42

  /** Lines 61-73: the hand's landmarks, translated so that the smallest x
      and the smallest y become 0. */
  function Features(h: Hand): (f: seq<real>)
    ensures |f| == 2 * |h|
  {
    if h == [] then [] else Offsets(h, Min(Xs(h)), Min(Ys(h)))
  }

  /** Entry 2i of the feature vector is x_i - min(x_) and entry 2i+1 is
      y_i - min(y_). */
  lemma FeaturesAt(h: Hand, i: int)
    requires 0 <= i < |h|
    ensures Features(h)[2 * i] == h[i].x - Min(Xs(h))
    ensures Features(h)[2 * i + 1] == h[i].y - Min(Ys(h))
  {
    OffsetsAt(h, Min(Xs(h)), Min(Ys(h)), i);
  }

  /** Every feature is non-negative, and both the x entries and the y
      entries reach exactly 0. */
  lemma FeaturesNormalised(h: Hand)
    requires h != []
    ensures forall k :: 0 <= k < |Features(h)| ==> Features(h)[k] >= 0.0
    ensures exists i :: 0 <= i < |h| && Features(h)[2 * i] == 0.0
    ensures exists i :: 0 <= i < |h| && Features(h)[2 * i + 1] == 0.0
  {
    var f := Features(h);
    forall k | 0 <= k < |f|
      ensures f[k] >= 0.0
    {
      var i := k / 2;
      FeaturesAt(h, i);
      assert Xs(h)[i] == h[i].x && Ys(h)[i] == h[i].y;
    }
    MinAttained(Xs(h));
    MinAttained(Ys(h));
    var ix :| 0 <= ix < |h| && Xs(h)[ix] == Min(Xs(h));
    var iy :| 0 <= iy < |h| && Ys(h)[iy] == Min(Ys(h));
    FeaturesAt(h, ix);
    FeaturesAt(h, iy);
  }

  /** The hand `h` moved by (dx, dy). */
  function Shift(h: Hand, dx: real, dy: real): (g: Hand)
  {
    seq(|h|, i requires 0 <= i < |h| => Landmark(h[i].x + dx, h[i].y + dy))
  }

  /** Moving every landmark by the same amount moves the minimum by that
      amount. */
  lemma MinShift(s: seq<real>, t: seq<real>, d: real)
    requires |s| == |t| > 0
    requires forall i :: 0 <= i < |s| ==> t[i] == s[i] + d
    ensures Min(t) == Min(s) + d
  {
    MinAttained(s);
    MinAttained(t);
    var i :| 0 <= i < |s| && s[i] == Min(s);
    var j :| 0 <= j < |t| && t[j] == Min(t);
    assert Min(t) <= t[i];
    assert Min(s) <= s[j];
  }

  /** Shifting a hand shifts the minima of its coordinates by the same amount. */
  lemma MinOfShift(h: Hand, dx: real, dy: real)
    requires h != []
    ensures Min(Xs(Shift(h, dx, dy))) == Min(Xs(h)) + dx
    ensures Min(Ys(Shift(h, dx, dy))) == Min(Ys(h)) + dy
  {
    var g := Shift(h, dx, dy);
    var xh, xg, yh, yg := Xs(h), Xs(g), Ys(h), Ys(g);
    assert forall i :: 0 <= i < |xh| ==> xg[i] == xh[i] + dx;
    assert forall i :: 0 <= i < |yh| ==> yg[i] == yh[i] + dy;
    MinShift(xh, xg, dx);
    MinShift(yh, yg, dy);
  }

  /** Translation invariance: the position of the hand in the frame does not
      change its features. */
  lemma FeaturesTranslationInvariant(h: Hand, dx: real, dy: real)
    ensures Features(Shift(h, dx, dy)) == Features(h)
  {
    if h != [] {
      var g := Shift(h, dx, dy);
      MinOfShift(h, dx, dy);
      var f, e := Features(h), Features(g);
      forall k | 0 <= k < |f|
        ensures e[k] == f[k]
      {
        var i := k / 2;
        assert k == 2 * i || k == 2 * i + 1;
        FeaturesAt(h, i);
        FeaturesAt(g, i);
      }
    }
  }

  /** Lines 76-80: the pixel box around the hand, 10 pixels larger than
      the landmarks on every side; its corners come from truncating the
      scaled extremes. It is at least twice the margin wide and tall. */
  function HandBox(h: Hand, width: nat, height: nat): (b: BBox)
    requires h != []
    ensures b.x2 - b.x1 >= 2 * Margin && b.y2 - b.y1 >= 2 * Margin
  {
    assert Min(Xs(h)) <= Xs(h)[0] <= Max(Xs(h));
    assert Min(Ys(h)) <= Ys(h)[0] <= Max(Ys(h));
    PixelMonotone(Min(Xs(h)), Max(Xs(h)), width);
    PixelMonotone(Min(Ys(h)), Max(Ys(h)), height);
    BBox(Pixel(Min(Xs(h)), width) - Margin,
         Pixel(Min(Ys(h)), height) - Margin,
         Pixel(Max(Xs(h)), width) + Margin,
         Pixel(Max(Ys(h)), height) + Margin)
  }

  /** Every landmark's pixel lies inside the box, at least the margin away
      from each side. */
  lemma HandBoxEnclosesLandmarks(h: Hand, width: nat, height: nat, i: nat)
    requires i < |h|
    ensures HandBox(h, width, height).x1 + Margin <= Pixel(h[i].x, width) <= HandBox(h, width, height).x2 - Margin
    ensures HandBox(h, width, height).y1 + Margin <= Pixel(h[i].y, height) <= HandBox(h, width, height).y2 - Margin
  {
    assert Min(Xs(h)) <= Xs(h)[i] <= Max(Xs(h));
    assert Min(Ys(h)) <= Ys(h)[i] <= Max(Ys(h));
    PixelMonotone(Min(Xs(h)), h[i].x, width);
    PixelMonotone(h[i].x, Max(Xs(h)), width);
    PixelMonotone(Min(Ys(h)), h[i].y, height);
    PixelMonotone(h[i].y, Max(Ys(h)), height);
  }

  /** A hand spanning x in [0.4, 0.6] and y in [0.3, 0.5] of a 640 x 480
      frame gets the box (246, 134, 394, 250). */
  lemma HandBoxExample(h: Hand)
    requires h != []
    requires Min(Xs(h)) == 0.4 && Max(Xs(h)) == 0.6
    requires Min(Ys(h)) == 0.3 && Max(Ys(h)) == 0.5
    ensures HandBox(h, 640, 480) == BBox(246, 134, 394, 250)
  {
    assert Pixel(0.4, 640) == 256;
    assert Pixel(0.3, 480) == 144;
    assert Pixel(0.6, 640) == 384;
    assert Pixel(0.5, 480) == 240;
  }

  /** Lines 83-96 for one hand: a label and confidence when the feature
      vector has 42 entries and neither `predict_proba` nor `np.argmax`
      raises; None when the try block ends without assigning them. */
  function HandPrediction(h: Hand, model: Model): (r: Option<(char, real)>)
    requires model.Loaded?
    ensures r.Some? <==>
      |h| == 21 && model.predictProba(Features(h)).Some? && model.predictProba(Features(h)).value != []
    ensures r.Some? ==> r == Predict(model.predictProba(Features(h)).value)
  {
    var f := Features(h);
    if |f| != FeatureLength then None
    else
      match model.predictProba(f)
      case None => None
      case Some(p) => Predict(p)
  }

  /** One iteration of the loop over detected hands (lines 50-96), applied to
      what the earlier iterations left. The skeleton is drawn and `bbox` is
      overwritten for every hand; `predicted_char` and `confidence` are
      overwritten, and the labelled box drawn, only when the prediction
      succeeds. A hand without landmarks makes `min(x_)` raise at line 76,
      outside the try block. */
  function Step(o: Outcome, h: Hand, model: Model): (r: Outcome)
    requires model.Loaded?
    ensures !o.Done? ==> r == o
    ensures r.Done? ==> o.Done? && h != []
    ensures r.Done? ==>
      r.frame.marks == o.frame.marks + [Skeleton(h)]
        + (if HandPrediction(h, model).Some?
           then [LabelledBox(HandBox(h, o.frame.width, o.frame.height),
                             HandPrediction(h, model).value.0, Some(HandPrediction(h, model).value.1))]
           else [])
  {
    match o
    case Done(frame, predicted, confidence, _) =>
      if h == [] then Raised
      else
        var drawn := Draw(frame, Skeleton(h));
        var box := HandBox(h, frame.width, frame.height);
        (match HandPrediction(h, model)
         case None => Done(drawn, predicted, confidence, Some(box))
         case Some((c, conf)) => Done(Draw(drawn, LabelledBox(box, c, Some(conf))), Some(c), conf, Some(box)))
    case _ => o
  }

  /** What one iteration does to a processed frame: it raises exactly when
      the hand has no landmarks; otherwise the frame keeps its size, `bbox`
      becomes this hand's box, and the prediction is replaced only when this
      hand's prediction succeeded. */
  lemma StepFacts(o: Outcome, h: Hand, model: Model)
    requires model.Loaded? && o.Done?
    ensures Step(o, h, model) == Raised <==> h == []
    ensures h != [] ==>
      && Step(o, h, model).Done?
      && Step(o, h, model).frame.width == o.frame.width
      && Step(o, h, model).frame.height == o.frame.height
      && Step(o, h, model).bbox == Some(HandBox(h, o.frame.width, o.frame.height))
    ensures h != [] && HandPrediction(h, model).None? ==>
      Step(o, h, model).predicted == o.predicted && Step(o, h, model).confidence == o.confidence
    ensures h != [] && HandPrediction(h, model).Some? ==>
      && Step(o, h, model).predicted == Some(HandPrediction(h, model).value.0)
      && Step(o, h, model).confidence == HandPrediction(h, model).value.1
  {
  }

  /** The loop over detected hands, in detector order, starting from `start`. */
  function Loop(start: Outcome, hands: seq<Hand>, model: Model): (r: Outcome)
    requires model.Loaded?
    ensures !start.Done? ==> r == start
    ensures r.Done? ==> start.Done?
    decreases |hands|
  {
    if hands == [] then start
    else Step(Loop(start, hands[..|hands| - 1], model), hands[|hands| - 1], model)
  }

  /** Lines 36-98 as a function of the frame, the detector's hands for it
      and the loaded model. */
  function ProcessFrameSpec(frame: Option<Frame>, hands: seq<Hand>, model: Model): (r: Outcome)
    ensures r == NoFrame <==> frame.None?
    ensures frame.Some? ==> r.Done? || r == Raised
    ensures r.Done? ==> r.frame.width == frame.value.width && r.frame.height == frame.value.height
    ensures r == Raised ==> model.Loaded? && hands != []
  {
    match frame
    case None => NoFrame
    case Some(f) =>
      var start := Done(f, None, 0.0, None);
      if hands != [] && model.Loaded? then
        LoopShape(start, hands, model);
        Loop(start, hands, model)
      else start
  }

  /** Lines 61-73: the lists `x_` and `y_`, then `data_aux`. */
  method HandFeatures(hand: Hand) returns (dataAux: seq<real>, xs: seq<real>, ys: seq<real>)
    ensures xs == Xs(hand) && ys == Ys(hand)
    ensures dataAux == Features(hand)
  {
    dataAux, xs, ys := [], [], [];
    for i := 0 to |hand|
      invariant xs == Xs(hand[..i]) && ys == Ys(hand[..i])
    {
      XsYsAppend(hand[..i], [hand[i]]);
      assert hand[..i + 1] == hand[..i] + [hand[i]];
      xs := xs + [hand[i].x];
      ys := ys + [hand[i].y];
    }
    assert hand[..|hand|] == hand;
    ghost var mx := if xs == [] then 0.0 else Min(xs);
    ghost var my := if ys == [] then 0.0 else Min(ys);
    for i := 0 to |hand|
      invariant dataAux == Offsets(hand[..i], mx, my)
    {
      assert hand[..i + 1][..i] == hand[..i];
      dataAux := dataAux + [hand[i].x - Min(xs), hand[i].y - Min(ys)];
    }
    assert hand[..|hand|] == hand;
  }

  /** Lines 51-96: one iteration of the loop over detected hands, given the
      frame and the values the earlier iterations left. `raised` reports the
      exception `min(x_)` throws for a hand without landmarks. */
  method VisitHand(frame: Frame, predictedChar: Option<char>, confidence: real, bbox: Option<BBox>,
                   hand: Hand, model: Model)
    returns (raised: bool, newFrame: Frame, newChar: Option<char>, newConfidence: real, newBox: Option<BBox>)
    requires model.Loaded?
    ensures raised ==> Step(Done(frame, predictedChar, confidence, bbox), hand, model) == Raised
    ensures !raised ==>
      Step(Done(frame, predictedChar, confidence, bbox), hand, model) == Done(newFrame, newChar, newConfidence, newBox)
  {
    var height, width := frame.height, frame.width;
    newFrame, newChar, newConfidence, newBox := frame, predictedChar, confidence, bbox;
    newFrame := Draw(newFrame, Skeleton(hand));
    var dataAux, xs, ys := HandFeatures(hand);
    if |xs| == 0 {
      return true, newFrame, newChar, newConfidence, newBox;
    }
    raised := false;
    var x1 := Pixel(Min(xs), width) - Margin;
    var y1 := Pixel(Min(ys), height) - Margin;
    var x2 := Pixel(Max(xs), width) + Margin;
    var y2 := Pixel(Max(ys), height) + Margin;
    assert BBox(x1, y1, x2, y2) == HandBox(hand, width, height);
    newBox := Some(BBox(x1, y1, x2, y2));
    if |dataAux| == FeatureLength {
      var prediction := model.predictProba(dataAux);
      if prediction.Some? && |prediction.value| > 0 {
        var predictedIdx := ArgMax(prediction.value) + 1;
        newConfidence := Max(prediction.value);
        newChar := Some(LabelOrUnknown(predictedIdx));
        newFrame := Draw(newFrame, LabelledBox(BBox(x1, y1, x2, y2), newChar.value, Some(newConfidence)));
      }
    }
  }

  /** Lines 36-98: `process_frame`, proved to compute ProcessFrameSpec. */
  method ProcessFrame(frame: Option<Frame>, hands: seq<Hand>, model: Model) returns (r: Outcome)
    ensures r == ProcessFrameSpec(frame, hands, model)
  {
    if frame.None? {
      return NoFrame;
    }
    var f := frame.value;
    var predictedChar: Option<char> := None;
    var confidence := 0.0;
    var bbox: Option<BBox> := None;
    ghost var start := Done(f, None, 0.0, None);
    if hands != [] && model.Loaded? {
      for k := 0 to |hands|
        invariant Loop(start, hands[..k], model) == Done(f, predictedChar, confidence, bbox)
      {
        assert hands[..k + 1][..k] == hands[..k];
        var raised;
        raised, f, predictedChar, confidence, bbox := VisitHand(f, predictedChar, confidence, bbox, hands[k], model);
        if raised {
          LoopRaisedStays(start, hands, k + 1, model);
          assert hands[..|hands|] == hands;
          return Raised;
        }
      }
      assert hands[..|hands|] == hands;
    }
    r := Done(f, predictedChar, confidence, bbox);
  }

  /** Once an iteration has raised, the later iterations never run. */
  lemma {:induction false} LoopRaisedStays(start: Outcome, hands: seq<Hand>, k: nat, model: Model)
    requires model.Loaded? && k <= |hands|
    requires Loop(start, hands[..k], model) == Raised
    ensures Loop(start, hands, model) == Raised
    decreases |hands|
  {
    if k < |hands| {
      assert hands[..|hands| - 1][..k] == hands[..k];
      LoopRaisedStays(start, hands[..|hands| - 1], k, model);
    } else {
      assert hands[..k] == hands;
    }
  }

  /** Started from a processed frame, the loop either raises or ends with a
      processed frame of the same size. */
  lemma {:induction false} LoopShape(start: Outcome, hands: seq<Hand>, model: Model)
    requires model.Loaded? && start.Done?
    ensures Loop(start, hands, model).Done? || Loop(start, hands, model) == Raised
    ensures Loop(start, hands, model).Done? ==>
      && Loop(start, hands, model).frame.width == start.frame.width
      && Loop(start, hands, model).frame.height == start.frame.height
    decreases |hands|
  {
    if hands != [] {
      var init := hands[..|hands| - 1];
      LoopShape(start, init, model);
      var prev := Loop(start, init, model);
      if prev.Done? {
        StepFacts(prev, hands[|hands| - 1], model);
      }
    }
  }

  /** When every hand before the last has landmarks, some hand is empty
      exactly when the last one is. */
  lemma OnlyLastCanBeEmpty(hands: seq<Hand>, n: nat)
    requires n + 1 == |hands|
    requires forall i :: 0 <= i < n ==> |hands[i]| != 0
    ensures (exists i :: 0 <= i < |hands| && |hands[i]| == 0) <==> |hands[n]| == 0
  {
  }

  /** Started from a processed frame, the loop raises exactly when some
      detected hand has no landmarks. */
  lemma {:induction false} LoopRaisedIff(start: Outcome, hands: seq<Hand>, model: Model)
    requires model.Loaded? && start.Done?
    ensures Loop(start, hands, model) == Raised <==> exists i :: 0 <= i < |hands| && |hands[i]| == 0
    decreases |hands|
  {
    if hands != [] {
      var n := |hands| - 1;
      var init := hands[..n];
      LoopRaisedIff(start, init, model);
      LoopShape(start, init, model);
      var prev := Loop(start, init, model);
      assert Loop(start, hands, model) == Step(prev, hands[n], model);
      if prev.Done? {
        StepFacts(prev, hands[n], model);
        forall i | 0 <= i < n
          ensures |hands[i]| != 0
        {
          assert init[i] == hands[i];
        }
        OnlyLastCanBeEmpty(hands, n);
      } else {
        var i :| 0 <= i < |init| && |init[i]| == 0;
        assert hands[i] == init[i];
      }
    }
  }

  /** When no hand raises, the loop completes and `bbox` is the box of the
      last detected hand. */
  lemma BoxFromLastHand(start: Outcome, hands: seq<Hand>, model: Model)
    requires model.Loaded? && start.Done? && hands != []
    requires forall i :: 0 <= i < |hands| ==> |hands[i]| > 0
    ensures Loop(start, hands, model).Done?
    ensures Loop(start, hands, model).bbox
         == Some(HandBox(hands[|hands| - 1], start.frame.width, start.frame.height))
  {
    LoopRaisedIff(start, hands, model);
    LoopShape(start, hands, model);
    var init := hands[..|hands| - 1];
    LoopShape(start, init, model);
    LoopRaisedIff(start, init, model);
    assert forall i :: 0 <= i < |init| ==> init[i] == hands[i];
    var prev := Loop(start, init, model);
    assert prev.Done?;
    StepFacts(prev, hands[|hands| - 1], model);
  }

  /** The last present entry of `s`; None when every entry is None. */
  function LastSome<T>(s: seq<Option<T>>): (r: Option<T>)
    decreases |s|
  {
    if s == [] then None
    else if s[|s| - 1].Some? then s[|s| - 1]
    else LastSome(s[..|s| - 1])
  }

  /** LastSome is None exactly when every entry is, and otherwise it is an
      entry after which every entry is None. */
  lemma {:induction false} LastSomeIsLast<T>(s: seq<Option<T>>)
    ensures LastSome(s).None? <==> forall j :: 0 <= j < |s| ==> s[j].None?
    ensures LastSome(s).Some? ==>
      exists j :: 0 <= j < |s| && s[j] == LastSome(s) && forall k :: j < k < |s| ==> s[k].None?
    decreases |s|
  {
    if s != [] {
      var n := |s| - 1;
      var init := s[..n];
      LastSomeIsLast(init);
      assert forall k :: 0 <= k < n ==> init[k] == s[k];
      if s[n].Some? {
        assert s[n] == LastSome(s);
      } else {
        assert LastSome(s) == LastSome(init);
        if LastSome(init).Some? {
          var j :| 0 <= j < |init| && init[j] == LastSome(init)
            && forall k :: j < k < |init| ==> init[k].None?;
          assert s[j] == LastSome(s);
          assert forall k :: j < k < |s| ==> s[k].None?;
        }
      }
    }
  }

  /** What the try block yields for each detected hand, in detector order. */
  function HandPredictions(hands: seq<Hand>, model: Model): (r: seq<Option<(char, real)>>)
    requires model.Loaded?
  {
    seq(|hands|, j requires 0 <= j < |hands| => HandPrediction(hands[j], model))
  }

  /** `predicted_char` and `confidence` come from the last hand whose
      prediction succeeded, and keep their starting values when none did. */
  lemma LoopPrediction(start: Outcome, hands: seq<Hand>, model: Model)
    requires model.Loaded? && start.Done?
    requires Loop(start, hands, model).Done?
    ensures LastSome(HandPredictions(hands, model)).None? ==>
      && Loop(start, hands, model).predicted == start.predicted
      && Loop(start, hands, model).confidence == start.confidence
    ensures LastSome(HandPredictions(hands, model)).Some? ==>
      && Loop(start, hands, model).predicted == Some(LastSome(HandPredictions(hands, model)).value.0)
      && Loop(start, hands, model).confidence == LastSome(HandPredictions(hands, model)).value.1
  {
    LoopLastPrediction(start, hands, model, HandPredictions(hands, model));
  }

  /** LoopPrediction for any list `ps` holding each hand's prediction. */
  lemma {:induction false} LoopLastPrediction(start: Outcome, hands: seq<Hand>, model: Model,
                                              ps: seq<Option<(char, real)>>)
    requires model.Loaded? && start.Done?
    requires Loop(start, hands, model).Done?
    requires |ps| == |hands| && forall j :: 0 <= j < |hands| ==> ps[j] == HandPrediction(hands[j], model)
    ensures LastSome(ps).None? ==>
      && Loop(start, hands, model).predicted == start.predicted
      && Loop(start, hands, model).confidence == start.confidence
    ensures LastSome(ps).Some? ==>
      && Loop(start, hands, model).predicted == Some(LastSome(ps).value.0)
      && Loop(start, hands, model).confidence == LastSome(ps).value.1
    decreases |hands|
  {
    if hands != [] {
      var n := |hands| - 1;
      var init := hands[..n];
      LoopShape(start, init, model);
      var prev := Loop(start, init, model);
      var next := Loop(start, hands, model);
      assert next == Step(prev, hands[n], model);
      StepFacts(prev, hands[n], model);
      assert forall j :: 0 <= j < n ==> ps[..n][j] == HandPrediction(init[j], model);
      LoopLastPrediction(start, init, model, ps[..n]);
      LastSomeStep(start.predicted, start.confidence, prev.predicted, prev.confidence,
                   next.predicted, next.confidence, ps);
    }
  }

  /** One more entry in the fold: an entry that is present replaces the
      running pair, a missing one keeps it. */
  lemma LastSomeStep(p0: Option<char>, c0: real, p: Option<char>, c: real, p': Option<char>, c': real,
                     s: seq<Option<(char, real)>>)
    requires s != []
    requires LastSome(s[..|s| - 1]).None? ==> p == p0 && c == c0
    requires LastSome(s[..|s| - 1]).Some? ==>
      p == Some(LastSome(s[..|s| - 1]).value.0) && c == LastSome(s[..|s| - 1]).value.1
    requires s[|s| - 1].None? ==> p' == p && c' == c
    requires s[|s| - 1].Some? ==> p' == Some(s[|s| - 1].value.0) && c' == s[|s| - 1].value.1
    ensures LastSome(s).None? ==> p' == p0 && c' == c0
    ensures LastSome(s).Some? ==> p' == Some(LastSome(s).value.0) && c' == LastSome(s).value.1
  {
  }

  /** With no frame all four values are None; with no detected hand or no
      model the frame is returned untouched with (None, 0.0, None). */
  lemma ProcessFrameDegenerate(frame: Option<Frame>, hands: seq<Hand>, model: Model)
    ensures frame.None? ==> ProcessFrameSpec(frame, hands, model) == NoFrame
    ensures frame.Some? && (hands == [] || model.Unavailable?) ==>
      ProcessFrameSpec(frame, hands, model) == Done(frame.value, None, 0.0, None)
  {
  }

  /** On a processed frame, `predicted_char` and `confidence` are those of the
      last hand that was classified, and (None, 0.0) when none was. */
  lemma ProcessFramePrediction(f: Frame, hands: seq<Hand>, model: Model)
    requires model.Unavailable? || forall i :: 0 <= i < |hands| ==> |hands[i]| > 0
    ensures ProcessFrameSpec(Some(f), hands, model).Done?
    ensures ProcessFrameSpec(Some(f), hands, model).predicted.None? <==>
      model.Unavailable? || forall j :: 0 <= j < |hands| ==> HandPredictions(hands, model)[j].None?
    ensures ProcessFrameSpec(Some(f), hands, model).predicted.None? ==>
      ProcessFrameSpec(Some(f), hands, model).confidence == 0.0
    ensures ProcessFrameSpec(Some(f), hands, model).predicted.Some? ==>
      && model.Loaded?
      && (exists j :: 0 <= j < |hands|
            && HandPredictions(hands, model)[j]
               == Some((ProcessFrameSpec(Some(f), hands, model).predicted.value,
                        ProcessFrameSpec(Some(f), hands, model).confidence))
            && forall k :: j < k < |hands| ==> HandPredictions(hands, model)[k].None?)
  {
    if hands != [] && model.Loaded? {
      var start := Done(f, None, 0.0, None);
      LoopRaisedIff(start, hands, model);
      LoopShape(start, hands, model);
      LoopPrediction(start, hands, model);
      LastSomeIsLast(HandPredictions(hands, model));
    }
  }

  /** With a model and hands that all have landmarks, the frame is processed
      and `bbox` is the last hand's box. */
  lemma ProcessFrameBox(f: Frame, hands: seq<Hand>, model: Model)
    requires hands != [] && model.Loaded?
    requires forall i :: 0 <= i < |hands| ==> |hands[i]| > 0
    ensures ProcessFrameSpec(Some(f), hands, model).Done?
    ensures ProcessFrameSpec(Some(f), hands, model).bbox == Some(HandBox(hands[|hands| - 1], f.width, f.height))
  {
    BoxFromLastHand(Done(f, None, 0.0, None), hands, model);
  }

  /** The request as `/classify` receives it: no `image` field (line 135);
      reading or decoding the bytes raised inside the try block (lines
      139-141); bytes that `cv2.imdecode` turned into None (line 143); or a
      decoded frame. */
  datatype Upload = NoImage | DecodeRaised | Undecodable | Decoded(frame: Frame)

  /** The JSON body and HTTP status `/classify` answers with. */
  datatype Response =
    /** `{'status': 'error', ...}`; the message is None where it is `str(e)`. */
    | Failure(code: nat, message: Option<string>)
    /** `{'status': 'success', 'prediction': ..., 'confidence': ...}`, status 200. */
    | Success(prediction: Option<char>, confidence: real, message: Option<string>)

  /** The HTTP status code of a response. */
  function StatusCode(r: Response): (c: nat)
  {
    match r
    case Failure(code, _) => code
    case Success(_, _, _) => 200
  }

  /** Lines 133-167: `/classify` for one upload, with `hands` the detector's
      output for the decoded frame. A missing or undecodable image is a
      client error; an exception while reading or decoding, or inside
      `process_frame`, is a 500; whatever else happens is a success. */
  function Classify(upload: Upload, hands: seq<Hand>, model: Model): (r: Response)
    ensures StatusCode(r) == 400 <==> upload.NoImage? || upload.Undecodable?
    ensures upload.DecodeRaised? ==> r == Failure(500, None)
    ensures StatusCode(r) in {200, 400, 500}
    ensures r.Success? && r.prediction.None? ==>
      r.confidence == 0.0 && r.message == Some("No hands detected")
  {
    match upload
    case NoImage => Failure(400, Some("No image provided"))
    case DecodeRaised => Failure(500, None)
    case Undecodable => Failure(400, Some("Failed to decode image"))
    case Decoded(frame) =>
      var o := ProcessFrameSpec(Some(frame), hands, model);
      if !o.Done? then Failure(500, None)
      else if o.predicted.None? then Success(None, 0.0, Some("No hands detected"))
      else Success(o.predicted, o.confidence, None)
  }

  /** A decoded image is answered 500 exactly when the model is loaded and a
      detected hand has no landmarks; otherwise it is a success. */
  lemma ClassifyServerError(frame: Frame, hands: seq<Hand>, model: Model)
    ensures StatusCode(Classify(Decoded(frame), hands, model)) == 500 <==>
      model.Loaded? && exists i :: 0 <= i < |hands| && |hands[i]| == 0
    ensures Classify(Decoded(frame), hands, model).Failure? ==>
      StatusCode(Classify(Decoded(frame), hands, model)) == 500
  {
    if hands != [] && model.Loaded? {
      LoopRaisedIff(Done(frame, None, 0.0, None), hands, model);
      LoopShape(Done(frame, None, 0.0, None), hands, model);
    }
  }

  /** A successful answer carries the label and confidence of the last hand
      that was classified, or no prediction when none was. */
  lemma ClassifyReportsLastPrediction(frame: Frame, hands: seq<Hand>, model: Model)
    requires model.Unavailable? || forall i :: 0 <= i < |hands| ==> |hands[i]| > 0
    ensures Classify(Decoded(frame), hands, model).Success?
    ensures Classify(Decoded(frame), hands, model).prediction.None? <==>
      model.Unavailable? || forall j :: 0 <= j < |hands| ==> HandPredictions(hands, model)[j].None?
    ensures Classify(Decoded(frame), hands, model).prediction.Some? ==>
      && model.Loaded?
      && (exists j :: 0 <= j < |hands|
            && HandPredictions(hands, model)[j]
               == Some((Classify(Decoded(frame), hands, model).prediction.value,
                        Classify(Decoded(frame), hands, model).confidence))
            && forall k :: j < k < |hands| ==> HandPredictions(hands, model)[k].None?)
  {
    ProcessFramePrediction(frame, hands, model);
  }

  /** One hand of 21 landmarks whose probability vector peaks at the third
      class is answered with 'C' and that probability. */
  lemma ClassifyExample(frame: Frame, h: Hand, model: Model)
    requires |h| == 21 && model.Loaded?
    requires model.predictProba(Features(h)) == Some([0.1, 0.05, 0.7, 0.05, 0.05, 0.05])
    ensures Classify(Decoded(frame), [h], model) == Success(Some('C'), 0.7, None)
  {
    PredictExample();
    var start := Done(frame, None, 0.0, None);
    assert [h][..0] == [];
    assert Loop(start, [h], model) == Step(start, h, model);
    assert HandPrediction(h, model) == Some(('C', 0.7));
    StepFacts(start, h, model);
  }
}
