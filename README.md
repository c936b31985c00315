# Sign-language hand classification: a Dafny model of the per-frame pipeline

This project models the per-frame gesture classification of a small
sign-language recogniser and proves properties of that model. The
recogniser has two entry points:

- a Flask web app (`app.py`). Its `process_frame` finds hands in a camera
  or uploaded frame. When a model is loaded, for each hand it draws the
  skeleton, builds a translation-normalised feature vector from the
  landmarks and computes a pixel box with a 10-pixel margin. When the
  hand has 21 landmarks it asks a classifier for class probabilities and
  maps the most likely class 1 to 6 to one of the symbols A to F, and any
  other class to '?', together with that class's probability as the
  confidence. Only a hand classified this way gets its box and label
  drawn on the frame. Its `/classify` route turns that result into an
  HTTP status and a response.
- an older stand-alone script (`src/inference.py`). Its capture loop does
  similar work per frame, with these differences:
  - it resets its lists once per frame rather than once per hand, so with
    two hands the features and the box mix both hands;
  - its box subtracts the margin from the bottom-right corner instead of
    adding it;
  - it has no 21-landmark guard: the classifier's `predict` receives the
    feature vector at whatever length it has (84 entries for two
    21-landmark hands);
  - it reads the class with `labels_dict[...]`, so a class outside 1 to 6
    raises, is caught, and shows no symbol rather than '?';
  - it computes and shows no confidence, and draws at most one box and
    label for the whole frame.

Modules:

- `Wrappers` holds `Option`.
- `Geometry` (geometry.dfy) covers:
  - landmarks, hands and pixel boxes;
  - Python's `int()` on a float, which truncates toward zero;
  - `min`/`max` over a list;
  - the interleaved offset vector;
  - a frame, modelled as its size plus the ordered list of overlays drawn
    on it.
- `Labels` (labels.dfy) covers `labels_dict`, both of the ways it is read,
  and `np.argmax`/`np.max` on the probability vector.
- `App` (app.dfy) covers `process_frame` and `classify`. The pure parts are
  specification functions. `process_frame` itself is a method with loops
  (`ProcessFrame`, `VisitHand`, `HandFeatures`), proved equal to the fold
  `ProcessFrameSpec` over the detected hands.
- `Inference` (inference.dfy) covers one pass of the script's `while`
  loop. `RunPass` and its loop methods are proved equal to `PassSpec`.

Everything outside the program is an input to the model:

- the hand detector's output is a `seq<Hand>`;
- the web app's `model.predict_proba` is a function from feature vectors
  to an optional probability vector, where None means the call raised; an
  unloaded model is `Unavailable`;
- the script's `model.predict(...)` followed by `int(...)` is a function
  to an optional class number;
- the camera frame is an optional frame;
- the upload to `/classify` is one of four cases: no `image` field,
  reading or decoding raised, `imdecode` returned None, or a decoded
  frame.

Python's exceptions become explicit outcomes:

- `min([])` at app.py:76 happens outside the inner `try`. It ends
  `process_frame` (`Raised`) and `classify` answers 500.
- The same failure in the script reaches the outer handler and breaks the
  loop (`Aborted`).
- `np.argmax` on an empty vector, or a failing `predict_proba`, is caught
  by the inner `try` and leaves that hand unclassified.
- `labels_dict[...]` on an unknown class is caught; the skeletons are already drawn, but no box or label is drawn.

The model follows what the code does, including where this differs from a natural reading of its intent:

- Coordinates pass through `int()`, which truncates; there is no floor or
  ceiling.
- `process_frame` returns one result per frame. The box always comes from
  the last hand. The symbol and confidence come from the last hand that
  was classified, not from each hand.
- `classify` answers 'No hands detected' whenever nothing was classified,
  including when hands were found but none had 21 landmarks.

## Model

| member | source | states |
|---|---|---|
| Labels.LabelOrUnknown | app.py:88 | `labels_dict.get(idx, '?')` on the table of line 26: maps classes 1..6 to 'A'..'F' in order, and any other index to '?' |
| Labels.LookupStrict | src/inference.py:97 | `labels_dict[idx]` on the table of line 40: defined exactly for 1..6 and then agrees with the `.get` reading; any other index raises (None) |
| Labels.ArgMax | app.py:86 | `np.argmax`: an index holding the largest probability, with every earlier entry strictly smaller, so it is the first maximum |
| Labels.Predict | app.py:86-88 | None exactly for an empty vector. Otherwise the confidence is at least every probability, and there is a first-maximum index k whose probability is the confidence and whose label is `labels_dict.get(k+1, '?')` |
| Labels.PredictExample | app.py:86-88 | a six-class vector peaking at its third entry (0.7) gives ('C', 0.7) |
| Labels.PredictUnknownClass | app.py:88 | a 7-class vector whose seventh entry is the strict maximum gives '?' with that confidence |
| Geometry.Trunc | app.py:76-79 | Python `int()` on a float: for r >= 0 the largest integer not above r, for r < 0 the smallest integer not below r |
| Geometry.Min | app.py:72 | `min(x_)` of a non-empty list is no larger than any of its values |
| Geometry.Max | app.py:78 | `max(x_)` of a non-empty list is no smaller than any of its values |
| Geometry.Xs | app.py:65-69 | `x_` holds one coordinate per landmark (likewise `Ys` for `y_`) |
| Geometry.PixelMonotone | app.py:76-79 | `int(v * size)` never decreases as v grows |
| Geometry.Pixel | app.py:76-79 | `int(v * size)` is not negative for a coordinate v >= 0, and is at most the side length for v <= 1, so a landmark inside the frame maps to a pixel index in [0, size] |
| Geometry.MinAttained | app.py:72 | `min(x_)` is one of the collected values (and by Min's contract no larger than any of them) |
| Geometry.MaxAttained | app.py:78 | `max(x_)` is one of the collected values (and by Max's contract no smaller than any of them) |
| Geometry.MinMaxOfSlice | src/inference.py:89-92 | the minimum of a list is at most, and its maximum at least, those of any non-empty stretch of it |
| Geometry.Offsets | app.py:71-73 | each landmark contributes two entries, so a hand of n landmarks yields 2n |
| Geometry.OffsetsAt | app.py:71-73 | entry 2i of the offset vector is landmark i's x minus the x origin, and entry 2i+1 its y minus the y origin |
| Geometry.OffsetsNonNegative | app.py:71-73 | measured from origins no larger than any coordinate, every offset entry is >= 0 |
| App.Features | app.py:61-73 | one hand with n landmarks yields 2n entries, so 21 landmarks yield 42 |
| App.FeaturesAt | app.py:71-73 | entry 2i is `x_i - min(x_)` and entry 2i+1 is `y_i - min(y_)` |
| App.FeaturesNormalised | app.py:71-73 | every entry is >= 0, and some x entry and some y entry is exactly 0 |
| App.MinOfShift | app.py:65-73 | moving a hand by (dx, dy) moves `min(x_)` by dx and `min(y_)` by dy |
| App.FeaturesTranslationInvariant | app.py:65-73 | moving every landmark by the same (dx, dy) leaves the feature vector unchanged |
| App.HandBox | app.py:76-80 | the box around a hand is at least twice the 10-pixel margin (20 pixels) wide and high, for every non-empty hand and frame size |
| App.HandBoxEnclosesLandmarks | app.py:76-80 | every landmark's pixel `int(x*W)`, `int(y*H)` lies inside the box, at least the margin away from each side |
| App.HandBoxExample | app.py:76-80 | x in [0.4, 0.6], y in [0.3, 0.5] on a 640x480 frame gives (246, 134, 394, 250) |
| App.HandPrediction | app.py:83-96 | a hand is classified exactly when it has 21 landmarks (42 features), `predict_proba` succeeds and returns a non-empty vector; the result is then `Predict` of that vector |
| App.Step | app.py:50-96 | one hand applied to an unprocessed or raised outcome changes nothing; a completed result needs a completed input and a hand with landmarks, and its frame gains this hand's skeleton, followed by the labelled box exactly when the hand is classified |
| App.StepFacts | app.py:50-96 | one hand: an empty hand raises. Otherwise the frame keeps its size, the box becomes this hand's HandBox, and the symbol and confidence are replaced exactly when the hand is classified, else kept |
| App.Loop | app.py:50-96 | a start that is not a processed frame passes through unchanged, and only a processed start can end processed |
| App.ProcessFrameSpec | app.py:36-98 | None is returned exactly when there is no frame; a frame ends processed with its size unchanged, or raises, and raising needs a model and at least one hand |
| App.HandFeatures | app.py:61-73 | the two landmark loops build `x_` and `y_` as the hand's coordinates and `data_aux` as its feature vector |
| App.VisitHand | app.py:51-96 | one iteration of the hand loop performs exactly one `Step`: it raises exactly when `Step` does, and otherwise returns `Step`'s new state |
| App.ProcessFrame | app.py:36-98 | the imperative `process_frame` computes `ProcessFrameSpec`, the fold of `Step` over the hands |
| App.LoopShape | app.py:50-96 | folding over any hands ends in a completed result with the frame size unchanged, or in `Raised` |
| App.LoopRaisedStays | app.py:76 | once an exception is raised, later hands do not change the outcome |
| App.LoopRaisedIff | app.py:76 | the loop raises exactly when some detected hand has no landmarks |
| App.BoxFromLastHand | app.py:50-80 | when every hand has landmarks the loop completes, and `bbox` is the box of the last hand |
| App.LastSomeIsLast | app.py:86-88 | the last present entry is None exactly when all entries are None, and otherwise is an entry with only None after it |
| App.LoopPrediction | app.py:86-88 | the symbol and confidence are those of the last classified hand, or stay at their initial values when no hand is classified |
| App.LoopLastPrediction | app.py:86-88 | the same for any list holding each hand's try-block result, by induction over the hands |
| App.ProcessFrameDegenerate | app.py:38-50 | no frame gives all four outputs None. No hands, or no model, gives `(frame, None, 0.0, None)` |
| App.ProcessFramePrediction | app.py:45-98 | with no model, or with hands that all have landmarks, the frame is processed; the symbol is None exactly when there is no model or no hand is classified. With None the confidence is 0.0; otherwise the pair is the last classified hand's |
| App.ProcessFrameBox | app.py:47-80 | with a model and hands that all have landmarks, the frame is processed and `bbox` is the last hand's box |
| App.Classify | app.py:133-167 | 400 exactly for a missing image or one `imdecode` turns into None; an exception while reading or decoding answers 500; the status is always 200, 400 or 500; success without a prediction carries confidence 0.0 and 'No hands detected' |
| App.ClassifyServerError | app.py:163-167 | a decoded image yields 500 exactly when a model is loaded and some detected hand has no landmarks |
| App.ClassifyReportsLastPrediction | app.py:147-161 | with no model, or with hands that all have landmarks, the answer is a success; the prediction is None exactly when there is no model or no hand was classified; otherwise the response carries the last classified hand's symbol and confidence |
| App.ClassifyExample | app.py:133-161 | one 21-landmark hand whose probabilities peak at class 3 with 0.7 gives success, 'C', 0.7 and no message |
| Inference.CrossFeatures | src/inference.py:75-86 | `data_aux` has two entries per landmark over all hands of the frame |
| Inference.FrameBox | src/inference.py:89-92 | the corners are ordered, and the box is the web app's box over all landmarks of the frame with the bottom-right corner moved up and left by twice the margin |
| Inference.DrawSkeletons | src/inference.py:65-72 | drawing keeps the frame size and adds one overlay per hand |
| Inference.PassSpec | src/inference.py:44-104 | capture failure exactly when `cap.read()` gives no frame; a shown frame keeps its size, has a box exactly when there were hands, a symbol only with a box, and two feature entries per collected landmark |
| Inference.AppendCoordinates | src/inference.py:76-80 | the first inner loop appends the hand's x and y coordinates to `x_` and `y_` |
| Inference.AppendOffsets | src/inference.py:82-86 | the second inner loop appends the hand's offsets from the current `min(x_)`, `min(y_)` |
| Inference.CrossFeaturesExtend | src/inference.py:75-86 | one more hand appends its landmarks to the collected lists and its offsets, from the running minimum, to `data_aux` |
| Inference.CollectFeatures | src/inference.py:46-48 | after the per-frame reset and the hand loop, `x_`, `y_` hold every hand's coordinates in order and `data_aux` is `CrossFeatures` |
| Inference.DrawHands | src/inference.py:65-72 | the drawing loop draws every hand's skeleton in order |
| Inference.RunPass | src/inference.py:44-104 | one pass of the capture loop computes `PassSpec`: capture failure, abort, or the shown frame with its features, box and symbol |
| Inference.FlattenAt | src/inference.py:75-80 | landmark i of hand k sits after all landmarks of the earlier hands |
| Inference.FlattenEmpty | src/inference.py:75-80 | no landmark is collected exactly when every hand is empty |
| Inference.FlattenUniform | src/inference.py:75-80 | k hands of 21 landmarks give 21k collected landmarks |
| Inference.CrossFeaturesPerFrame | src/inference.py:46-48 | because the lists are reset per frame, k hands of 21 landmarks leave 42k entries in `data_aux` |
| Inference.CrossFeaturesPrefix | src/inference.py:75-86 | later hands only append: the entries of the first j hands are unchanged |
| Inference.CrossFeaturesSegment | src/inference.py:76-86 | hand k's entries are its offsets from the minimum over all landmarks of hands 0 to k |
| Inference.CrossFeaturesRunningMinimum | src/inference.py:82-86 | entry by entry: landmark i of hand k minus the running minimum of `x_` (and of `y_`) |
| Inference.CrossFeaturesOneHand | src/inference.py:75-86 | with a single hand the features equal the web app's `Features` |
| Inference.CrossFeaturesFirstHand | src/inference.py:75-86 | the first hand's entries are its own web-app features |
| Inference.CrossFeaturesNonNegative | src/inference.py:82-86 | every entry is >= 0 |
| Inference.CrossFeaturesBlendHands | src/inference.py:75-86 | with two hands where the first lies further left, the second hand's entries differ from its own web-app features |
| Inference.OffsetsShiftedOrigin | src/inference.py:85 | offsets of a non-empty hand from two different x origins differ |
| Inference.FrameBoxOneHand | src/inference.py:89-92 | with one hand the top-left corner equals the web app's, and the bottom-right corner lies 20 pixels up and left of it (margin subtracted) |
| Inference.FrameBoxCoversHand | src/inference.py:89-92 | the box's corners bound every hand's web-app box, after adding back twice the margin at the bottom-right |
| Inference.ExtremesOfStretch | src/inference.py:89-92 | the extreme coordinates of one hand lie within those of all landmarks |
| Inference.FlattenPrefix | src/inference.py:75-80 | the first j hands' landmarks lead the collected list |
| Inference.FlattenSegment | src/inference.py:75-80 | hand k occupies its own stretch of the collected list |
| Inference.DrawSkeletonsMarks | src/inference.py:65-72 | drawing appends one skeleton per hand in detector order and keeps the frame size |
| Inference.PassOutcome | src/inference.py:64 | without hands nothing is computed or drawn. A frame with hands aborts exactly when none of them has a landmark |
| Inference.PassSymbol | src/inference.py:89-104 | when some hand has landmarks the pass is shown and its box is `FrameBox` over all hands; a symbol is shown exactly when `predict` gives a class 1..6, and it is that class's letter. The frame shows the skeletons plus the labelled box exactly when there is a symbol |

## Left out

- The MediaPipe hand detector, `cvtColor` and the pickled scikit-learn classifier are foreign calls; the model takes their results as inputs.
- Pixels and OpenCV drawing (`draw_landmarks`, `rectangle`, `putText`) are left out; a frame records only its size and the overlays drawn on it, in order. Caption text, font, colour and thickness are not modelled.
- `f"{confidence:.2f}"` formatting and IEEE floating-point rounding are left out; coordinates and probabilities are mathematical reals.
- The camera loops (`gen_frames`, the script's `cap.read` loop and cleanup), `imshow`, `waitKey` and the 'q' key are device I/O; one pass of the loop is modelled, with `Aborted` and `CaptureFailed` standing for its two `break`s taken here.
- Flask routing, the multipart stream, `request.files`, `imdecode` and `jsonify` are HTTP I/O; an upload is missing, raised while being read or decoded, undecodable, or a decoded frame, and a response is a status with its fields.
- App.Classify: the 500 response's message is `str(e)` of a Python exception, which is not modelled (its message is None).
- The `KeyboardInterrupt` handler of the script is left out: interrupts are not modelled.
- Startup model loading with `pickle.load` is left out; a missing model is `Unavailable` in the web app, and the script exits before its loop, so it always has one.
- `print` diagnostics are left out.
- The script reads the frame size anew on every pass; one pass is modelled, so it reads it once.
- Inference.RunPass: the script's `int(prediction[0])` on the classifier's label is folded into the `predict` input, which yields the class number or None when either raises.
