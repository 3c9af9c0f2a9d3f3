/**
 * The fastText language detector adapter. The fastText model itself is an
 * oracle: given a text and a count `k` it returns up to `k` decorated labels
 * (`__label__en`) and, in parallel, their scores. The adapter keeps that
 * oracle and a score threshold, both fixed at construction, and normalises
 * what the oracle returns.
 */
module FastText {
  import opened LabelStrip

  /** The threshold a detector gets when none is given. */
  const DefaultThreshold: real := 0.1

  /** The `k` of `_detect_single`: fastText's default for `predict`. */
  const SingleK: int := 1

  /** The `k` of `_detect_many`. */
  const ManyK: int := 5

  /** What the model's `predict` returns: labels and their scores, in the model's order. */
  datatype Prediction = Prediction(labels: seq<string>, scores: seq<real>)

  /** A text and a requested number of candidates, to the model's answer. */
  type Oracle = (string, int) -> Prediction

  /** The detector: the loaded model and the threshold, neither changed after construction. */
  datatype FastTextDetector = FastTextDetector(model: Oracle, threshold: real)

  /** One entry of `_detect_many`'s result: a bare language code and its score. */
  datatype Candidate = Candidate(language: string, score: real)

  /** `_detect_single` fails only by indexing an empty label list. */
  datatype DetectError = NoLabel

  datatype Result<T> = Ok(value: T) | Err(error: DetectError)

  function Min(a: int, b: int): (m: int) {
    if a <= b then a else b
  }

  /** The constructor; loading the model file is replaced by handing over the model. */
  function Init(model: Oracle, threshold: real := DefaultThreshold): (d: FastTextDetector)
    ensures d.threshold == threshold
    ensures forall text, k :: d.model(text, k) == model(text, k)
  {
    FastTextDetector(model, threshold)
  }

  /** A detector built without a threshold uses 0.1. */
  lemma InitDefaultThreshold(model: Oracle)
    ensures Init(model).threshold == 0.1
  {
  }

  /**
   * `_detect_single`: the first label of the model's top-1 answer with the
   * marker removed; an empty answer is the IndexError of `[0][0]`.
   */
  function DetectSingle(d: FastTextDetector, text: string): (r: Result<string>)
    ensures r.Err? <==> d.model(text, SingleK).labels == []
    ensures r.Ok? ==> |r.value| <= |d.model(text, SingleK).labels[0]|
  {
    var labels := d.model(text, SingleK).labels;
    if labels == [] then Err(NoLabel) else Ok(Strip(labels[0]))
  }

  /** A fastText label `__label__c` is reported as `c`. */
  lemma DetectSingleOfDecoratedLabel(d: FastTextDetector, text: string, c: string)
    requires d.model(text, SingleK).labels != []
    requires d.model(text, SingleK).labels[0] == Marker + c
    requires !ContainsMarker(c)
    ensures DetectSingle(d, text) == Ok(c)
  {
    StripDecoratedLabel(c);
  }

  /** A label without the marker is reported as it is. */
  lemma DetectSingleOfBareLabel(d: FastTextDetector, text: string)
    requires d.model(text, SingleK).labels != []
    requires !ContainsMarker(d.model(text, SingleK).labels[0])
    ensures DetectSingle(d, text) == Ok(d.model(text, SingleK).labels[0])
  {
    StripWithoutMarker(d.model(text, SingleK).labels[0]);
  }

  /**
   * The list comprehension of `_detect_many`: walk `zip(languages, scores)`,
   * which stops at the shorter list, and keep `(stripped label, score)` for
   * each pair whose score is strictly above the threshold.
   */
  function KeepAbove(languages: seq<string>, scores: seq<real>, threshold: real): (r: seq<Candidate>)
    ensures |r| <= |languages| && |r| <= |scores|
    ensures forall c :: c in r ==> c.score > threshold
    decreases |languages|
  {
    if languages == [] || scores == [] then []
    else
      var rest := KeepAbove(languages[1..], scores[1..], threshold);
      if scores[0] > threshold then [Candidate(Strip(languages[0]), scores[0])] + rest else rest
  }

  /** `_detect_many`: ask the model for five candidates and filter them. */
  function DetectMany(d: FastTextDetector, text: string): (r: seq<Candidate>)
    ensures |r| <= |d.model(text, ManyK).labels| && |r| <= |d.model(text, ManyK).scores|
    ensures forall c :: c in r ==> c.score > d.threshold
  {
    var p := d.model(text, ManyK);
    KeepAbove(p.labels, p.scores, d.threshold)
  }

  /**
   * The positions `lo <= i < n` whose score is strictly above the threshold,
   * in increasing order: the reference for what the filter must keep.
   */
  function Passing(scores: seq<real>, threshold: real, lo: nat, n: nat): (ix: seq<nat>)
    requires n <= |scores|
    ensures forall i :: i in ix <==> lo <= i < n && scores[i] > threshold
    ensures forall j :: 0 <= j < |ix| ==> lo <= ix[j] < n
    ensures forall a, b :: 0 <= a < b < |ix| ==> ix[a] < ix[b]
    decreases n - lo
  {
    if lo >= n then []
    else (if scores[lo] > threshold then [lo] else []) + Passing(scores, threshold, lo + 1, n)
  }

  /**
   * `r` holds, in order, the pairs of `zip(languages, scores)` at positions
   * `ix`, each label stripped.
   */
  ghost predicate PairsAt(r: seq<Candidate>, languages: seq<string>, scores: seq<real>, ix: seq<nat>) {
    && |r| == |ix|
    && forall j :: 0 <= j < |r| ==>
         && ix[j] < |languages| && ix[j] < |scores|
         && r[j] == Candidate(Strip(languages[ix[j]]), scores[ix[j]])
  }

  /**
   * `r` is the in-order selection of the pairs at the passing positions of
   * `zip(languages, scores)`, each label stripped: nothing is reordered,
   * nothing is invented, no passing pair is missing.
   */
  ghost predicate SelectsPassing(r: seq<Candidate>, languages: seq<string>, scores: seq<real>, threshold: real) {
    PairsAt(r, languages, scores, Passing(scores, threshold, 0, Min(|languages|, |scores|)))
  }

  /** Selecting one more position in front selects its pair in front. */
  lemma PairsAtCons(r: seq<Candidate>, languages: seq<string>, scores: seq<real>, ix: seq<nat>, i: nat)
    requires PairsAt(r, languages, scores, ix)
    requires i < |languages| && i < |scores|
    ensures PairsAt([Candidate(Strip(languages[i]), scores[i])] + r, languages, scores, [i] + ix)
  {
  }

  lemma {:induction false} KeepAboveFrom(languages: seq<string>, scores: seq<real>, threshold: real, lo: nat)
    requires lo <= Min(|languages|, |scores|)
    ensures PairsAt(KeepAbove(languages[lo..], scores[lo..], threshold), languages, scores,
                    Passing(scores, threshold, lo, Min(|languages|, |scores|)))
    decreases Min(|languages|, |scores|) - lo
  {
    var n := Min(|languages|, |scores|);
    if lo < n {
      KeepAboveFrom(languages, scores, threshold, lo + 1);
      var rest := KeepAbove(languages[lo + 1..], scores[lo + 1..], threshold);
      var later := Passing(scores, threshold, lo + 1, n);
      assert languages[lo..][1..] == languages[lo + 1..];
      assert scores[lo..][1..] == scores[lo + 1..];
      if scores[lo] > threshold {
        PairsAtCons(rest, languages, scores, later, lo);
      }
    }
  }

  /** The comprehension keeps exactly the passing pairs of the zip, in order. */
  lemma KeepAboveSelectsPassing(languages: seq<string>, scores: seq<real>, threshold: real)
    ensures SelectsPassing(KeepAbove(languages, scores, threshold), languages, scores, threshold)
  {
    KeepAboveFrom(languages, scores, threshold, 0);
    assert languages[0..] == languages;
    assert scores[0..] == scores;
  }

  /** `_detect_many` returns exactly the passing pairs of the model's answer, in the model's order. */
  lemma DetectManySelectsPassing(d: FastTextDetector, text: string)
    ensures var p := d.model(text, ManyK);
            SelectsPassing(DetectMany(d, text), p.labels, p.scores, d.threshold)
  {
    var p := d.model(text, ManyK);
    KeepAboveSelectsPassing(p.labels, p.scores, d.threshold);
  }

  /** Every pair of the zip whose score is above the threshold is reported, stripped. */
  lemma DetectManyKeepsEveryPassingPair(d: FastTextDetector, text: string, i: nat)
    requires i < |d.model(text, ManyK).labels| && i < |d.model(text, ManyK).scores|
    requires d.model(text, ManyK).scores[i] > d.threshold
    ensures var p := d.model(text, ManyK);
            Candidate(Strip(p.labels[i]), p.scores[i]) in DetectMany(d, text)
  {
    var p := d.model(text, ManyK);
    DetectManySelectsPassing(d, text);
    var ix := Passing(p.scores, d.threshold, 0, Min(|p.labels|, |p.scores|));
    assert i in ix;
    var j :| 0 <= j < |ix| && ix[j] == i;
    assert DetectMany(d, text)[j] == Candidate(Strip(p.labels[i]), p.scores[i]);
  }

  /**
   * The result is empty exactly when no score of the zip is above the
   * threshold; that is an empty list, not an error.
   */
  lemma DetectManyEmptyIff(d: FastTextDetector, text: string)
    ensures var p := d.model(text, ManyK);
            DetectMany(d, text) == [] <==>
            forall i :: 0 <= i < |p.labels| && i < |p.scores| ==> p.scores[i] <= d.threshold
  {
    var p := d.model(text, ManyK);
    if DetectMany(d, text) == [] {
      forall i | 0 <= i < |p.labels| && i < |p.scores| ensures p.scores[i] <= d.threshold {
        if p.scores[i] > d.threshold {
          DetectManyKeepsEveryPassingPair(d, text, i);
        }
      }
    } else {
      DetectManySelectsPassing(d, text);
      var ix := Passing(p.scores, d.threshold, 0, Min(|p.labels|, |p.scores|));
      assert ix[0] in ix;
    }
  }

  /** When the model honours `k = 5`, at most five candidates come back. */
  lemma DetectManyAtMostK(d: FastTextDetector, text: string)
    requires |d.model(text, ManyK).labels| <= ManyK || |d.model(text, ManyK).scores| <= ManyK
    ensures |DetectMany(d, text)| <= 5
  {
  }

  ghost predicate NonIncreasing(scores: seq<real>) {
    forall a, b :: 0 <= a < b < |scores| ==> scores[a] >= scores[b]
  }

  ghost predicate Decreasing(scores: seq<real>) {
    forall a, b :: 0 <= a < b < |scores| ==> scores[a] > scores[b]
  }

  function Scores(r: seq<Candidate>): (s: seq<real>)
    ensures |s| == |r|
    ensures forall j :: 0 <= j < |r| ==> s[j] == r[j].score
  {
    seq(|r|, j requires 0 <= j < |r| => r[j].score)
  }

  /**
   * The adapter does not sort: its result is in descending score order only
   * because, and when, the model's scores are.
   */
  lemma DetectManySortedIfModelSorted(d: FastTextDetector, text: string)
    ensures NonIncreasing(d.model(text, ManyK).scores) ==> NonIncreasing(Scores(DetectMany(d, text)))
    ensures Decreasing(d.model(text, ManyK).scores) ==> Decreasing(Scores(DetectMany(d, text)))
  {
    var p := d.model(text, ManyK);
    DetectManySelectsPassing(d, text);
    var ix := Passing(p.scores, d.threshold, 0, Min(|p.labels|, |p.scores|));
    var s := Scores(DetectMany(d, text));
    assert forall j :: 0 <= j < |s| ==> s[j] == p.scores[ix[j]];
  }

  /** A model that answers in ascending score order gets an ascending result. */
  lemma DetectManyKeepsModelOrder()
    ensures var model := (text: string, k: int) => Prediction([Marker + "de", Marker + "en"], [0.2, 0.5]);
            DetectMany(Init(model), "Auf Wiedersehen. Hello.") == [Candidate("de", 0.2), Candidate("en", 0.5)]
  {
    var model := (text: string, k: int) => Prediction([Marker + "de", Marker + "en"], [0.2, 0.5]);
    var p := Init(model).model("Auf Wiedersehen. Hello.", ManyK);
    assert p.labels[1..] == [Marker + "en"] && p.scores[1..] == [0.5];
    assert !ContainsMarker("de");
    assert !ContainsMarker("en");
    StripDecoratedLabel("de");
    StripDecoratedLabel("en");
    assert KeepAbove([Marker + "en"], [0.5], 0.1) == [Candidate("en", 0.5)];
  }

  /** A score equal to the threshold is dropped. */
  lemma DetectManyThresholdIsExclusive()
    ensures var model := (text: string, k: int) => Prediction([Marker + "en"], [0.1]);
            DetectMany(Init(model), "Hello.") == []
  {
  }

  /**
   * When the model's top-1 answer heads its top-5 answer and that score
   * passes the threshold, the single label is the first of the many.
   */
  lemma DetectSingleHeadsDetectMany(d: FastTextDetector, text: string)
    requires d.model(text, SingleK).labels != []
    requires d.model(text, ManyK).labels != [] && d.model(text, ManyK).scores != []
    requires d.model(text, SingleK).labels[0] == d.model(text, ManyK).labels[0]
    requires d.model(text, ManyK).scores[0] > d.threshold
    ensures DetectMany(d, text) != []
    ensures DetectSingle(d, text) == Ok(DetectMany(d, text)[0].language)
  {
  }

  /**
   * Neither call changes the detector, so the results depend only on the
   * model's answers and the threshold: a deterministic model gives the same
   * results on every call, and `_detect_single` ignores the threshold.
   */
  lemma DetectionDependsOnlyOnAnswers(d: FastTextDetector, e: FastTextDetector, text: string)
    requires d.model(text, SingleK) == e.model(text, SingleK)
    requires d.model(text, ManyK) == e.model(text, ManyK)
    ensures DetectSingle(d, text) == DetectSingle(e, text)
    ensures d.threshold == e.threshold ==> DetectMany(d, text) == DetectMany(e, text)
  {
  }
}
