# fastText language detector adapter, modelled in Dafny

This project models `FastTextDetector`, the fastText backend of the language
detectors in `langchain_experimental`. The detector holds a loaded fastText model
and a score threshold. Neither changes after construction. It has two primitives:

- `_detect_single` asks the model for its top label. It removes the `__label__`
  decoration and returns the bare language code.
- `_detect_many` asks the model for up to five `(label, score)` candidates. It pairs
  them with `zip`, removes the decoration from each label, and keeps only the pairs
  whose score is strictly greater than the threshold.

The fastText model is an oracle, `(text, k) -> Prediction(labels, scores)`, stored
in the detector value (`FastText.FastTextDetector`). Nothing is assumed about the
oracle's answers. The model makes no claim about which language a text yields.
Properties that hold only for a well-behaved oracle (one that sorts its scores,
honours `k`, or whose top-1 answer heads its top-5 answer) are stated as
conditional lemmas.

The label normalisation is Python's `label.replace("__label__", "")`, modelled in
`LabelStrip.Strip`. That is a single left-to-right pass that removes every
non-overlapping occurrence. It is neither a prefix removal nor a repeated
replacement. The model proves that `Strip` agrees with the find-copy-skip loop
CPython uses (`StripAtFirstOccurrence`). It also proves that `Strip` leaves a
string unchanged exactly when the string holds no marker.

One place where the docstring and the code differ, and the model follows the
code: the docstring of `_detect_many` (fast_text.py lines 28-29) promises the
result sorted by descending score. The code does not sort: it keeps the model's
order. Sortedness is therefore proved only under the hypothesis that the model's
scores are sorted (`DetectManySortedIfModelSorted`). A model that answers in
ascending order gives an ascending result (`DetectManyKeepsModelOrder`).

The code does not check for an empty text: it passes the text to the model as it
is, and so does the model.

Modules: `LabelStrip` (label_strip.dfy) holds the marker removal. `FastText`
(fast_text.py's class, in fast_text.dfy) holds the detector, its two primitives,
the reference definition `Passing` of which pairs must survive the filter, and the
lemmas about them.

## Model

| member | source | states |
|---|---|---|
| `LabelStrip.Strip` | libs/experimental/langchain_experimental/language_detector/fast_text.py:25 | `label.replace("__label__", "")`: the result is never longer than the label, and it is shorter by a whole number of markers |
| `LabelStrip.StripWithoutMarker` | libs/experimental/langchain_experimental/language_detector/fast_text.py:34 | a label that contains no `__label__` is returned unchanged |
| `LabelStrip.StripCopiesUnmatchedPrefix` | libs/experimental/langchain_experimental/language_detector/fast_text.py:34 | characters before the first occurrence of the marker are copied through as they are |
| `LabelStrip.StripSkipsFirstMarker` | libs/experimental/langchain_experimental/language_detector/fast_text.py:34 | the first occurrence is dropped as a whole, and the scan resumes right after it |
| `LabelStrip.StripAtFirstOccurrence` | libs/experimental/langchain_experimental/language_detector/fast_text.py:25 | replace agrees with the find-copy-skip loop: the result is the text before the leftmost marker, followed by the replacement of the text after it |
| `LabelStrip.StripFixesExactlyUnmarked` | libs/experimental/langchain_experimental/language_detector/fast_text.py:34 | a label comes back unchanged if and only if it contains no `__label__` |
| `LabelStrip.StripDecoratedLabel` | libs/experimental/langchain_experimental/language_detector/fast_text.py:25 | `"__label__" + c` becomes `c` whenever `c` contains no marker |
| `LabelStrip.StripEnglishLabel` | libs/experimental/langchain_experimental/language_detector/fast_text.py:25 | fastText's `__label__en` becomes `en` |
| `LabelStrip.StripRemovesTrailingMarker` | libs/experimental/langchain_experimental/language_detector/fast_text.py:34 | the marker is removed wherever it stands: `en__label__` becomes `en`, which a prefix removal would not do |
| `LabelStrip.StripIsSinglePass` | libs/experimental/langchain_experimental/language_detector/fast_text.py:34 | the replacement is one pass: `____label__label__` becomes `__label__`, which still contains the marker |
| `FastText.Init` | libs/experimental/langchain_experimental/language_detector/fast_text.py:19-21 | the constructor keeps the given model and the given threshold |
| `FastText.InitDefaultThreshold` | libs/experimental/langchain_experimental/language_detector/fast_text.py:19 | the threshold defaults to 0.1 |
| `FastText.DetectSingle` | libs/experimental/langchain_experimental/language_detector/fast_text.py:23-25 | fails (the IndexError of `[0][0]`) if and only if the model's top-1 answer has no label; otherwise the result is no longer than the model's first label |
| `FastText.DetectSingleOfDecoratedLabel` | libs/experimental/langchain_experimental/language_detector/fast_text.py:25 | a first label `__label__c`, with no marker in `c`, is reported as `c` |
| `FastText.DetectSingleOfBareLabel` | libs/experimental/langchain_experimental/language_detector/fast_text.py:25 | a first label without the marker is reported unchanged |
| `FastText.KeepAbove` | libs/experimental/langchain_experimental/language_detector/fast_text.py:33-36 | the comprehension over `zip`: it returns no more pairs than either list has, and every returned score is strictly above the threshold |
| `FastText.DetectMany` | libs/experimental/langchain_experimental/language_detector/fast_text.py:27-36 | the result is no longer than the model's label list or its score list, and every score in it is strictly above the detector's threshold |
| `FastText.Passing` | libs/experimental/langchain_experimental/language_detector/fast_text.py:35 | reference definition: the positions of the zip whose score is strictly above the threshold, each exactly once, in increasing order |
| `FastText.KeepAboveFrom` | libs/experimental/langchain_experimental/language_detector/fast_text.py:33-36 | from any position on, the comprehension yields the stripped pairs at the passing positions, in order |
| `FastText.KeepAboveSelectsPassing` | libs/experimental/langchain_experimental/language_detector/fast_text.py:33-36 | the comprehension is exactly the in-order filter of `zip(labels, scores)`, with labels stripped |
| `FastText.DetectManySelectsPassing` | libs/experimental/langchain_experimental/language_detector/fast_text.py:31-36 | `_detect_many` returns exactly the passing pairs of the model's five-candidate answer: none reordered, none invented, none missing |
| `FastText.DetectManyKeepsEveryPassingPair` | libs/experimental/langchain_experimental/language_detector/fast_text.py:35 | every position of the zip whose score exceeds the threshold appears in the result, with its label stripped |
| `FastText.DetectManyEmptyIff` | libs/experimental/langchain_experimental/language_detector/fast_text.py:35 | the result is the empty list, not an error, exactly when no score of the zip exceeds the threshold |
| `FastText.DetectManyAtMostK` | libs/experimental/langchain_experimental/language_detector/fast_text.py:31 | when the model honours `k=5` for labels or scores, at most five candidates are returned |
| `FastText.DetectManySortedIfModelSorted` | libs/experimental/langchain_experimental/language_detector/fast_text.py:28-29 | when the model's scores are non-increasing (strictly decreasing), so are the result's |
| `FastText.DetectManyKeepsModelOrder` | libs/experimental/langchain_experimental/language_detector/fast_text.py:33-36 | no sorting happens: a model that answers `de 0.2, en 0.5` gets `[("de", 0.2), ("en", 0.5)]` back |
| `FastText.DetectManyThresholdIsExclusive` | libs/experimental/langchain_experimental/language_detector/fast_text.py:35 | a score equal to the default threshold 0.1 is dropped |
| `FastText.DetectSingleHeadsDetectMany` | libs/experimental/langchain_experimental/language_detector/fast_text.py:23-36 | when the model's top-1 label heads its top-5 answer and that score passes the threshold, `_detect_single` returns the first language of `_detect_many` |
| `FastText.DetectionDependsOnlyOnAnswers` | libs/experimental/langchain_experimental/language_detector/fast_text.py:19-36 | the results depend only on the model's answers and the threshold: the same answers give the same results on every call, and `_detect_single` ignores the threshold |

## Left out

- Loading `lid.176.ftz` from disk (fast_text.py line 20) and fastText inference: the model is a parameter of the detector, an arbitrary function from text and `k` to labels and scores.
- Exceptions raised inside the model's `predict` (for example on a text with a newline) are not modelled: the oracle always answers.
- A model that answers differently to the same question is not modelled: the oracle is a function. The idempotence of repeated calls therefore holds by construction (`DetectionDependsOnlyOnAnswers`).
- Scores and the threshold are mathematical reals, not IEEE doubles. NaN and rounding are not modelled. The code only compares scores with `>` and never computes with them.
- Results are `Candidate(language, score)` values rather than Python tuples.
- The public wrappers `detect_single_language` and `detect_many_languages` live in `language_detector/base.py`, and the other backend in `lang_detect.py`. Neither file is part of this model; only the two `_detect_*` primitives are modelled.
- `docker_containers.py`, `tools/pycontain/tool.py` and `azure_cognitive_services/text2speech.py` are wrappers over Docker, an external Python REPL and the Azure Speech SDK, so they are not modelled. `language_detector/__init__.py` only re-exports names.
- The test scenarios expecting `en` and `de` (test_language_detector.py lines 25-26 and 46-50) depend on the real statistical model and are not modelled.
