# Rationale-span IoU F1, modelled in Dafny

This project models `iou_f1` in `src/evaluation_utils.py`, the scorer for
token-level rationale tagging, together with its harmonic-mean helper `_f1`
and the ordinal binning loop shared by `get_acc` and `get_f1`.

For each example of a batch, `iou_f1` does four things:

1. It trims the predicted and the reference tag sequences. It drops the first
   token and keeps at most `lens[idx]` of the rest.
2. It extracts the runs of 1s as half-open spans. Tags other than 0 and 1
   neither open nor close a run. As written, a run that reaches the end of
   the sequence loses its last token (see `AsWritten` under `Spans` below).
3. For every predicted span it finds the best intersection-over-union (IoU)
   against the reference spans. A span counts as a true positive when that
   best IoU reaches the threshold.
4. It forms micro recall (true positives over reference spans) and micro
   precision (true positives over predicted spans), and takes their F1.

The batch score is the mean of the per-example F1 values.

Modules, one file each:

- `Spans` (`spans.dfy`): trimming, and the two-state scan as a fold over
  `Closed | Open(start)`. The same scan serves both the predicted and the
  reference side. A `Convention` parameter says how a run still open at the
  end of the sequence is closed:
  - `AsWritten` closes it at the last visited index, `|t| - 1`, as the code does;
  - `Corrected` closes it at `|t|`.
- `Overlap` (`overlap.dfy`): span lengths, intersection and union by interval
  arithmetic, IoU, and the strict-`>` best-match fold. It also holds the
  lemma tying these to the code's `set(range(...))` formulation.
- `Matching` (`matching.dfy`): the thresholded true-positive count and its
  bounds. It proves that with a threshold of at least 1/2 no reference span
  is matched twice.
- `Scoring` (`scoring.dfy`): `_f1`, the safe ratio, the per-example F1, the
  mean, and the batch result. The batch result is either a score or a
  `BatchError`:
  - `EmptyBatch` for the NaN mean of an empty batch;
  - `IndexOutOfRange` for a missing `labels[idx]` or `lens[idx]`.
- `Scenarios` (`scenarios.dfy`): whole-pipeline consequences. They cover
  perfect predictions under both conventions, and a threshold below 1/2
  pushing the score above 1.
- `Binning` (`binning.dfy`): the downward binning loop as a method, proved
  equal to an upward reference search.

Precision and recall follow the code. Recall is true positives over reference
spans (line 239), and precision is true positives over predicted spans
(line 240). These are the conventional definitions. The code does pass them
to `_f1` as `(recall, precision)` while `_f1` names its parameters
`(_p, _r)`. That swap is harmless because F1 is symmetric
(`Scoring.F1Symmetric`).

## Model

| member | source | states |
|---|---|---|
| Spans.Trim | src/evaluation_utils.py:151-152 | `s[1:][:n]` for any integer `n`: empty input gives empty output; the length is `min(n, len(s) - 1)` for `n >= 0` and `len(s) - 1 + n` (at least 0) for negative `n`; every kept tag is the input tag one position later (the same trimming is applied to labels at lines 189-190) |
| Spans.ExtractSpans | src/evaluation_utils.py:154-182 | for a trimmed sequence of length L, spans are ordered and disjoint (`prev.end < next.start`, `start <= end`), start on a 1 inside the sequence, end at most `L - 1` as written (`L` corrected); a zero-length span can only be the last one, `(L - 1, L - 1)`, and only as written; there are no spans exactly when the sequence has no 1 |
| Spans.ScanUpToInvariant | src/evaluation_utils.py:159-177 | after every prefix of the scan, each emitted span began on a 1 and was closed by the 0 at its end, spans are separated, an open run began on a 1 after all emitted spans and has met no 0, and something was opened exactly when the prefix holds a 1 |
| Spans.CoverageAsWritten | src/evaluation_utils.py:159-182 | for a 0/1 sequence the offsets covered by the extracted half-open spans are exactly the 1s before the last position; the last position is never covered |
| Spans.CoverageCorrected | src/evaluation_utils.py:179-182 | closing the terminal run at `L` instead, the covered offsets are exactly the 1s |
| Spans.TerminalSpan | src/evaluation_utils.py:179-182 | if the sequence ends with a run of 1s starting at `s`, the last span is `(s, L - 1)` as written and `(s, L)` corrected |
| Spans.OrderedDistinct | src/evaluation_utils.py:232 | extracted spans are pairwise distinct (starts strictly increase), so no two share a dictionary key |
| Overlap.IoU | src/evaluation_utils.py:226-228 | IoU lies in [0, 1], is 0 for an empty union, is positive exactly when the spans share an offset, and is 1 exactly for two identical non-empty spans |
| Overlap.IouMatchesPointSets | src/evaluation_utils.py:226-228 | the interval intersection and union have the sizes of the set intersection and union of the two `range`s, so IoU equals the set-based ratio |
| Overlap.IouSymmetric | src/evaluation_utils.py:226-228 | IoU does not depend on the order of the two spans |
| Overlap.BestFrom | src/evaluation_utils.py:224-231 | the strict-`>` update loop ends with a value at least its start and at least every IoU, equal to its start or to one of the IoUs |
| Overlap.BestIou | src/evaluation_utils.py:223-232 | the recorded best IoU is the maximum IoU over the reference spans, in [0, 1], and 0 when there are none |
| Overlap.BestIouReaches | src/evaluation_utils.py:224-237 | for a positive threshold, the best IoU reaches it exactly when some reference span's IoU does |
| Matching.TruePositives | src/evaluation_utils.py:234-237 | the inclusive threshold count is at most the number of predicted spans, is all of them for a threshold at most 0, and none for a threshold above 1 or for no reference spans with a positive threshold |
| Matching.TruePositivesCountsKeys | src/evaluation_utils.py:232-237 | for distinct spans, counting over the span list equals counting the dictionary keys whose value reaches the threshold |
| Matching.TruePositivesAntitone | src/evaluation_utils.py:237 | raising the threshold never increases the count |
| Matching.TruePositivesAtMostReferences | src/evaluation_utils.py:222-239 | for extracted (ordered) span lists and a threshold of at least 1/2, true positives never outnumber the reference spans, so recall is at most 1 |
| Matching.TruePositivesOfContained | src/evaluation_utils.py:223-237 | non-empty predicted spans that all occur among the reference spans are all true positives for any threshold up to 1 |
| Scoring.F1 | src/evaluation_utils.py:135-138 | 0 when either argument is 0; for two positive arguments the harmonic mean lies between the smaller and the larger one; on [0, 1] it stays in [0, 1] and is 1 exactly for (1, 1) |
| Scoring.F1Symmetric | src/evaluation_utils.py:241 | swapping the arguments (recall first, as the call does) gives the same F1 |
| Scoring.F1Monotone | src/evaluation_utils.py:135-138 | on non-negative arguments F1 never decreases when either argument grows |
| Scoring.Ratio | src/evaluation_utils.py:239-240 | 0 for a zero denominator; otherwise the quotient; non-negative, 0 exactly when numerator or denominator is 0, at most 1 when the numerator is at most the denominator |
| Scoring.RatioMonotone | src/evaluation_utils.py:239-240 | a larger true-positive count never gives a smaller ratio |
| Scoring.ExampleF1 | src/evaluation_utils.py:239-241 | per-example F1 is non-negative, 0 when either span list is empty, and at most 1 for extracted span lists and a threshold of at least 1/2 |
| Scoring.ExampleF1Antitone | src/evaluation_utils.py:234-241 | raising the threshold never raises the per-example F1 |
| Scoring.ExampleF1OfIdentical | src/evaluation_utils.py:222-241 | a non-empty list of non-empty spans scored against itself gives 1 for any threshold up to 1 |
| Scoring.MeanAtLeast | src/evaluation_utils.py:244 | the mean of values all at least `lo` is at least `lo` |
| Scoring.MeanAtMost | src/evaluation_utils.py:244 | the mean of values all at most `hi` is at most `hi` |
| Scoring.ExampleScore | src/evaluation_utils.py:148-242 | each example's score (trim, extract, match, F1) is non-negative, and at most 1 for a threshold of at least 1/2 |
| Scoring.IouF1 | src/evaluation_utils.py:140-244 | an empty batch is an error, a missing label or length is an error exactly when the batch is non-empty and `labels` or `lens` is shorter than the predictions, and otherwise the score is non-negative and, for a threshold of at least 1/2, at most 1 |
| Scenarios.SingleExampleBatch | src/evaluation_utils.py:242-244 | a batch of one example scores exactly that example's score |
| Scenarios.PerfectPredictionScoresZero | src/evaluation_utils.py:179-182 | as written, when the only 1 of the trimmed sequence is its last tag, a prediction identical to the reference scores 0 for every positive threshold |
| Scenarios.PerfectPredictionExample | src/evaluation_utils.py:179-182 | the batch `[[0, 1]]` scored against itself with length 1 and threshold 0.5 gives 0.0 as written |
| Scenarios.PerfectPredictionExampleCorrected | src/evaluation_utils.py:179-182 | the same batch gives 1.0 with the terminal run closed at `L` |
| Scenarios.PerfectPredictionScoresOne | src/evaluation_utils.py:140-244 | with the corrected terminal convention, a batch whose predictions equal the references scores exactly 1 when every trimmed example has a 1 and the threshold is at most 1 |
| Scenarios.LowThresholdExceedsOne | src/evaluation_utils.py:234-241 | at threshold 0.4, two predicted spans inside one reference span both count, recall is 2 and the batch score is 4/3 |
| Binning.FirstAbove | src/evaluation_utils.py:84-89 | the upward reference search returns the first index from `lo` whose bound exceeds `x`, or `numLabels - 1` when none does |
| Binning.Bin | src/evaluation_utils.py:22-27 | the label is the smallest index whose bound exceeds the prediction when there is one, and `numLabels - 1` otherwise |
| Binning.BinLabel | src/evaluation_utils.py:85-88 | the downward overwrite loop computes exactly the label of the upward reference search |
| Binning.ConvertPredictions | src/evaluation_utils.py:83-89 | the converted list has one label per prediction, in order, each the label of its prediction |
| Binning.BinMonotone | src/evaluation_utils.py:84-89 | with no more bounds than labels, a larger prediction never gets a smaller label, sorted bounds or not |
| Binning.BinInRange | src/evaluation_utils.py:23-26 | with at least one label, the label lies in [0, max(len(bounds) - 1, numLabels - 1)], and below `numLabels` when there are no more bounds than labels |

## Left out

- The `np.argmax` over the score tensor (line 141) is not modelled. The model
  takes the predicted tag sequences as given integer sequences; the reduction
  belongs to a numerical library outside this model.
- The `classification_labels` parameter and the `all_pred_spans` and
  `all_label_spans` lists are not modelled, because the code never reads them.
- The `sklearn` F1 calls in `get_f1`, `compute_f1` and `compute_f1_rationale`
  (lines 91, 102-108, 129) are not modelled: they are calls into a foreign
  library.
- The `round(i * (num_labels - 1))` scaling and clamping in `flat_accuracy`
  and `compute_f1` (lines 51-58, 97-99) are not modelled: they are float
  multiplication with banker's rounding.
- The accuracies are not modelled. Lines 28, 60 and 76 are each one library
  sum over an element-wise comparison, divided by a length; line 79 is the
  library mean of the per-example accuracies of line 76.
- Arithmetic is exact. IoU, thresholds, ratios and F1 are Dafny `real`, so
  float rounding is not modelled. A float IoU close to the threshold may
  compare differently from the exact ratio.
- Scoring.IouF1: an empty batch is the error `EmptyBatch`. The source instead
  returns NaN with a runtime warning; the model says nothing about that value.
- The threshold is always an explicit argument of `Scoring.IouF1`; the
  source's default `threshold = 0.5` (line 140) is not modelled as a default.
  The proved bounds for thresholds of at least 1/2 cover that default.
- The harmonic mean requires that `p + r` is non-zero whenever both arguments
  are non-zero, because Python raises a division by zero there. The scorer
  only passes non-negative arguments, so it never hits this case.
- Binning predictions and bounds are exact reals. The `round(b)` in
  `get_acc` (line 26) is the identity on the integer index `b`, so `get_acc`
  and `get_f1` bin identically.

## Findings

| source | as written | input that shows it | evidently intended | confidence | as-written member | corrected member |
|---|---|---|---|---|---|---|
| src/evaluation_utils.py:179-182 | a run of 1s that reaches the end of the trimmed sequence is closed at the last visited index `L-1`, so the half-open span drops its last token, and a lone trailing 1 becomes the empty span `(L-1, L-1)` with IoU 0 even against itself | one example, prediction = label = `[0, 1]`, `lens = [1]`, threshold 0.5: the trimmed sequence is `[1]`, and the batch scores 0.0 although the prediction is perfect | close the terminal run at `L`, like every run closed by a 0, so that spans cover exactly the 1s and a perfect prediction scores 1 | high (not executed) | Scenarios.PerfectPredictionExample | Scenarios.PerfectPredictionExampleCorrected |

The as-written half of this finding is backed by `Spans.CoverageAsWritten`,
`Spans.TerminalSpan` and `Scenarios.PerfectPredictionScoresZero`. The
corrected half is backed by `Spans.CoverageCorrected` and
`Scenarios.PerfectPredictionScoresOne`. Every operation takes the
`Convention` as a parameter, so all bounds proved for the batch score hold
under both conventions.
