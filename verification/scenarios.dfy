/**
  Whole-pipeline consequences of the model: what a perfect prediction scores
  under each terminal convention, and how a threshold below 1/2 lets the
  score leave [0, 1].
 */
module Scenarios {
  import opened Spans
  import opened Overlap
  import opened Matching
  import opened Scoring

  /**
    As written, a run of 1s that reaches the end of the trimmed sequence is
    closed one position early. When the only 1 is the last position, the
    span is empty, its IoU with itself is 0, and even a prediction identical
    to the reference scores 0 for every positive threshold.
   */
  lemma PerfectPredictionScoresZero(pred: seq<int>, length: int, threshold: real)
    requires 0.0 < threshold
    requires var t := Trim(pred, length);
      0 < |t| && t[|t| - 1] == 1 && forall i :: 0 <= i < |t| - 1 ==> t[i] != 1
    ensures ExampleScore(pred, pred, length, threshold, AsWritten) == 0.0
    ensures IouF1([pred], [pred], [length], threshold, AsWritten) == Ok(0.0)
  {
    var t := Trim(pred, length);
    var last := |t| - 1;
    var spans := ExtractSpans(t, AsWritten);
    LoneTerminalSpan(t);
    assert IoU(Span(last, last), Span(last, last)) == 0.0;
    assert TruePositives(spans, spans, threshold) == 0;
    SingleExampleBatch(pred, pred, length, threshold, AsWritten);
  }

  /** As written, a sequence whose only 1 is its last position yields the single empty span at that position. */
  lemma LoneTerminalSpan(t: seq<int>)
    requires 0 < |t| && t[|t| - 1] == 1 && forall i :: 0 <= i < |t| - 1 ==> t[i] != 1
    ensures ExtractSpans(t, AsWritten) == [Span(|t| - 1, |t| - 1)]
  {
    var spans := ExtractSpans(t, AsWritten);
    assert HasPositive(t, |t|) by {
      assert t[|t| - 1] == 1;
    }
    forall k | 0 <= k < |spans|
      ensures spans[k].start == |t| - 1
    {
    }
    FirstTwoStarts(spans);
  }

  /**
    The first two spans of an ordered list start at different offsets. Stated
    apart from `LoneTerminalSpan` because there, where every start is known to
    be the same, the indices `spans[0]` and `spans[1]` could only be written in
    a branch the context already rules out.
   */
  lemma FirstTwoStarts(spans: seq<Span>)
    requires Ordered(spans)
    ensures 2 <= |spans| ==> spans[0].start < spans[1].start
  {
  }

  /** The smallest input showing the early close: one example `[_, 1]` with length 1, scored as written. */
  lemma PerfectPredictionExample()
    ensures IouF1([[0, 1]], [[0, 1]], [1], 0.5, AsWritten) == Ok(0.0)
  {
    assert Trim([0, 1], 1) == [1];
    PerfectPredictionScoresZero([0, 1], 1, 0.5);
  }

  /** The same input scores 1 once the terminal run keeps its last token. */
  lemma PerfectPredictionExampleCorrected()
    ensures IouF1([[0, 1]], [[0, 1]], [1], 0.5, Corrected) == Ok(1.0)
  {
    assert Trim([0, 1], 1) == [1];
    assert HasPositive([1], 1) by {
      assert [1][0] == 1;
    }
    PerfectPredictionScoresOne([[0, 1]], [1], 0.5);
  }

  /**
    With runs closed at the end of the sequence, a batch whose predictions
    equal the references scores exactly 1, provided every trimmed example has
    a 1 (an example without spans scores 0) and the threshold is at most 1.
   */
  lemma PerfectPredictionScoresOne(preds: seq<seq<int>>, lens: seq<int>, threshold: real)
    requires 0 < |preds| <= |lens|
    requires threshold <= 1.0
    requires forall i :: 0 <= i < |preds| ==> HasPositive(Trim(preds[i], lens[i]), |Trim(preds[i], lens[i])|)
    ensures IouF1(preds, preds, lens, threshold, Corrected) == Ok(1.0)
  {
    var scores := ExampleScores(preds, preds, lens, threshold, Corrected);
    forall i | 0 <= i < |scores|
      ensures scores[i] == 1.0
    {
      var spans := ExtractSpans(Trim(preds[i], lens[i]), Corrected);
      ExampleF1OfIdentical(spans, threshold);
    }
    MeanAtLeast(scores, 1.0);
    MeanAtMost(scores, 1.0);
  }

  /**
    Below a threshold of 1/2 one reference span can be matched by several
    predicted spans: two predicted spans each covering 2 of the 5 offsets of
    one reference span both count at threshold 2/5, so recall is 2 and the
    score is 4/3.
   */
  lemma LowThresholdExceedsOne()
    ensures IouF1([[0, 1, 1, 0, 1, 1, 0]], [[0, 1, 1, 1, 1, 1, 0]], [6], 0.4, AsWritten) == Ok(4.0 / 3.0)
  {
    LowThresholdExampleScore();
    SingleExampleBatch([0, 1, 1, 0, 1, 1, 0], [0, 1, 1, 1, 1, 1, 0], 6, 0.4, AsWritten);
  }

  /** A batch of one example scores what that example scores. */
  lemma SingleExampleBatch(pred: seq<int>, reference: seq<int>, length: int, threshold: real, c: Convention)
    ensures IouF1([pred], [reference], [length], threshold, c) == Ok(ExampleScore(pred, reference, length, threshold, c))
  {
    var score := ExampleScore(pred, reference, length, threshold, c);
    var scores := ExampleScores([pred], [reference], [length], threshold, c);
    assert |scores| == 1 && scores[0] == score;
    MeanAtLeast(scores, score);
    MeanAtMost(scores, score);
  }

  /** The single example of the batch above scores 4/3. */
  lemma LowThresholdExampleScore()
    ensures ExampleScore([0, 1, 1, 0, 1, 1, 0], [0, 1, 1, 1, 1, 1, 0], 6, 0.4, AsWritten) == 4.0 / 3.0
  {
    assert Trim([0, 1, 1, 0, 1, 1, 0], 6) == [1, 1, 0, 1, 1, 0];
    assert Trim([0, 1, 1, 1, 1, 1, 0], 6) == [1, 1, 1, 1, 1, 0];
    LowThresholdSpans();
    LowThresholdF1();
  }

  /** Both predicted spans reach IoU 2/5 with the reference span, so recall is 2 and F1 is 4/3. */
  lemma LowThresholdF1()
    ensures ExampleF1([Span(0, 2), Span(3, 5)], [Span(0, 5)], 0.4) == 4.0 / 3.0
  {
    assert IoU(Span(0, 2), Span(0, 5)) == 0.4;
    assert IoU(Span(3, 5), Span(0, 5)) == 0.4;
    assert TruePositives([Span(0, 2), Span(3, 5)], [Span(0, 5)], 0.4) == 2;
  }

  /** Two predicted spans inside one reference span. */
  lemma LowThresholdSpans()
    ensures ExtractSpans([1, 1, 0, 1, 1, 0], AsWritten) == [Span(0, 2), Span(3, 5)]
    ensures ExtractSpans([1, 1, 1, 1, 1, 0], AsWritten) == [Span(0, 5)]
  {
    var t := [1, 1, 0, 1, 1, 0];
    assert ScanUpTo(t, 3) == ScanState(Closed, [Span(0, 2)]);
    assert ScanUpTo(t, 6) == ScanState(Closed, [Span(0, 2), Span(3, 5)]);
    var u := [1, 1, 1, 1, 1, 0];
    assert ScanUpTo(u, 5) == ScanState(Open(0), []);
    assert ScanUpTo(u, 6) == ScanState(Closed, [Span(0, 5)]);
  }
}
