/** The label table both files share, and the way the web app turns the
    classifier's probability vector into a label and a confidence. */
module Labels {
  import opened Wrappers
  import opened Geometry

  /** `labels_dict`: 1-based class index to gesture symbol. */
  const LabelTable: map<int, char> := map[1 := 'A', 2 := 'B', 3 := 'C', 4 := 'D', 5 := 'E', 6 := 'F']

  /** The symbols of classes 1 to 6, in order. */
  const Alphabet: string := "ABCDEF"

  /** `labels_dict.get(idx, '?')`: the symbol of a known class, the marker
      '?' for any other index. */
  function LabelOrUnknown(idx: int): (c: char)
    ensures 1 <= idx <= |Alphabet| ==> c == Alphabet[idx - 1]
    ensures !(1 <= idx <= |Alphabet|) ==> c == '?'
  {
    if idx in LabelTable then LabelTable[idx] else '?'
  }

  /** `labels_dict[idx]`: the symbol of a known class; None where Python
      raises KeyError. */
  function LookupStrict(idx: int): (r: Option<char>)
    ensures r.Some? <==> 1 <= idx <= |Alphabet|
    ensures r.Some? ==> r.value == Alphabet[idx - 1] == LabelOrUnknown(idx)
  {
    if idx in LabelTable then Some(LabelTable[idx]) else None
  }

  /** `np.argmax`: the FIRST index holding the largest probability. */
  function ArgMax(p: seq<real>): (k: nat)
    requires |p| > 0
    ensures k < |p|
    ensures forall j :: 0 <= j < |p| ==> p[j] <= p[k]
    ensures forall j :: 0 <= j < k ==> p[j] < p[k]
    decreases |p|
  {
    if |p| == 1 then 0
    else
      var k := ArgMax(p[..|p| - 1]);
      if p[k] < p[|p| - 1] then |p| - 1 else k
  }

  /** Lines 85-88 of the web app after `predict_proba` returned `p`: the
      label of class argmax + 1 and the confidence `np.max(p)`; None where
      `np.argmax` raises on an empty vector. */
  function Predict(p: seq<real>): (r: Option<(char, real)>)
    ensures r.None? <==> |p| == 0
    ensures r.Some? ==> forall j :: 0 <= j < |p| ==> p[j] <= r.value.1
    ensures r.Some? ==>
      exists k :: 0 <= k < |p| && p[k] == r.value.1 && r.value.0 == LabelOrUnknown(k + 1)
        && forall j :: 0 <= j < k ==> p[j] < p[k]
  {
    if |p| == 0 then None
    else
      var k := ArgMax(p);
      MaxAttained(p);
      Some((LabelOrUnknown(k + 1), Max(p)))
  }

  /** A six-class vector whose third entry is the largest gives 'C' with that
      entry as its confidence. */
  lemma PredictExample()
    ensures Predict([0.1, 0.05, 0.7, 0.05, 0.05, 0.05]) == Some(('C', 0.7))
  {
    var p := [0.1, 0.05, 0.7, 0.05, 0.05, 0.05];
    var k := ArgMax(p);
    assert p[2] <= p[k];
    assert k == 2;
  }

  /** With more than six classes, the extra classes come back as '?'. */
  lemma PredictUnknownClass(p: seq<real>)
    requires |p| == 7
    requires forall j :: 0 <= j < 6 ==> p[j] < p[6]
    ensures Predict(p) == Some(('?', p[6]))
  {
    var k := ArgMax(p);
    assert p[6] <= p[k];
    assert k == 6;
  }
}
