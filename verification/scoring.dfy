/**
  Aggregation of matched spans into scores: the harmonic-mean F1 helper, the
  per-example micro precision/recall/F1, and the batch mean.
 */
module Scoring {
  import opened Spans
  import opened Overlap
  import opened Matching

  /**
    Harmonic mean of `p` and `r`, 0 when either is 0. Python raises on the
    remaining division by zero (`p + r == 0` with both non-zero), so callers
    must avoid it. For two positive arguments the mean lies between the
    smaller and the larger one; on [0, 1] it stays in [0, 1] and is 1 only
    for (1, 1).
   */
  function F1(p: real, r: real): (f: real)
    requires p == 0.0 || r == 0.0 || p + r != 0.0
    ensures p == 0.0 || r == 0.0 ==> f == 0.0
    ensures 0.0 < p <= r ==> p <= f <= r
    ensures 0.0 < r <= p ==> r <= f <= p
    ensures 0.0 <= p <= 1.0 && 0.0 <= r <= 1.0 ==> 0.0 <= f <= 1.0
    ensures 0.0 <= p <= 1.0 && 0.0 <= r <= 1.0 ==> (f == 1.0 <==> p == 1.0 && r == 1.0)
  {
    if p == 0.0 || r == 0.0 then 0.0
    else
      var f := 2.0 * p * r / (p + r);
      HarmonicMeanFacts(p, r, f);
      f
  }

  lemma HarmonicMeanFacts(p: real, r: real, f: real)
    requires 0.0 != p && 0.0 != r && p + r != 0.0
    requires f == 2.0 * p * r / (p + r)
    ensures 0.0 < p <= r ==> p <= f <= r
    ensures 0.0 < r <= p ==> r <= f <= p
    ensures 0.0 < p <= 1.0 && 0.0 < r <= 1.0 ==> (f == 1.0 <==> p == 1.0 && r == 1.0)
  {
    var s := p + r;
    assert f * s == 2.0 * p * r;
    if 0.0 < p && 0.0 < r {
      // f - p and r - f both have the sign of r - p, scaled by s > 0.
      assert (f - p) * s == p * (r - p);
      assert (r - f) * s == r * (r - p);
      ProductSign(p, r - p);
      ProductSign(r, r - p);
      ProductSign(p, p - r);
      ProductSign(r, p - r);
      SignOfQuotient(f - p, s, p * (r - p));
      SignOfQuotient(r - f, s, r * (r - p));
      if p <= 1.0 && r <= 1.0 {
        // (1 - f) * s == p * (1 - r) + r * (1 - p), a sum of non-negative terms.
        assert (1.0 - f) * s == p * (1.0 - r) + r * (1.0 - p);
        ProductSign(p, 1.0 - r);
        ProductSign(r, 1.0 - p);
        if f == 1.0 {
          assert p * (1.0 - r) == 0.0 && r * (1.0 - p) == 0.0;
        }
      }
    }
  }

  /** With `x * s == y` and `s > 0`, `x` has the sign of `y`. */
  lemma SignOfQuotient(x: real, s: real, y: real)
    requires 0.0 < s && x * s == y
    ensures 0.0 <= y ==> 0.0 <= x
    ensures y <= 0.0 ==> x <= 0.0
  {
    if x < 0.0 {
      ProductSign(-x, s);
    } else if x > 0.0 {
      ProductSign(x, s);
    }
  }

  /** The harmonic mean is symmetric, so passing (recall, precision) or (precision, recall) gives the same F1. */
  lemma F1Symmetric(p: real, r: real)
    requires p == 0.0 || r == 0.0 || p + r != 0.0
    ensures F1(p, r) == F1(r, p)
  {
    assert 2.0 * p * r == 2.0 * r * p;
  }

  /** F1 never decreases when either argument grows (on non-negative arguments). */
  lemma F1Monotone(p: real, r: real, p': real, r': real)
    requires 0.0 <= p <= p' && 0.0 <= r <= r'
    ensures F1(p, r) <= F1(p', r')
  {
    if p != 0.0 && r != 0.0 {
      assert F1(p, r) == 2.0 * p * r / (p + r);
      assert F1(p', r') == 2.0 * p' * r' / (p' + r');
      CrossTerms(p, r, p', r');
      CrossMultiplied(2.0 * p * r, p + r, 2.0 * p' * r', p' + r');
    }
  }

  /** p r (p' + r') <= p' r' (p + r), term by term, when 0 <= p <= p' and 0 <= r <= r'. */
  lemma CrossTerms(p: real, r: real, p': real, r': real)
    requires 0.0 <= p <= p' && 0.0 <= r <= r'
    ensures 2.0 * p * r * (p' + r') <= 2.0 * p' * r' * (p + r)
  {
    var x := p * p';
    var y := r * r';
    ProductSign(p, p');
    ProductSign(r, r');
    ProductSign(x, r' - r);
    ProductSign(y, p' - p);
    assert 2.0 * p' * r' * (p + r) - 2.0 * p * r * (p' + r') == 2.0 * (x * (r' - r) + y * (p' - p));
  }

  /** a / b <= c / d for positive b, d when a d <= c b. */
  lemma CrossMultiplied(a: real, b: real, c: real, d: real)
    requires 0.0 < b && 0.0 < d
    requires a * d <= c * b
    ensures a / b <= c / d
  {
    var x := a / b;
    var y := c / d;
    assert x * b == a && y * d == c;
    assert (y - x) * (b * d) == c * b - a * d;
    ProductSign(b, d);
    SignOfQuotient(y - x, b * d, c * b - a * d);
  }

  /** `n / d`, or 0 when there is nothing to divide by (the source's `... if len(...) > 0 else 0`). */
  function Ratio(n: nat, d: nat): (q: real)
    ensures d == 0 ==> q == 0.0
    ensures d > 0 ==> q * d as real == n as real
    ensures 0.0 <= q
    ensures q == 0.0 <==> n == 0 || d == 0
    ensures n <= d ==> q <= 1.0
    ensures 0 < n == d ==> q == 1.0
  {
    if d == 0 then 0.0 else Ratio01OrMore(n, d)
  }

  function Ratio01OrMore(n: nat, d: nat): (q: real)
    requires 0 < d
    ensures q * d as real == n as real
    ensures 0.0 <= q
    ensures q == 0.0 <==> n == 0
    ensures n <= d ==> q <= 1.0
    ensures n == d ==> q == 1.0
  {
    var q := n as real / d as real;
    assert q * d as real == n as real;
    SignOfQuotient(q, d as real, n as real);
    SignOfQuotient(q - 1.0, d as real, (n - d) as real);
    q
  }

  /** A larger numerator never gives a smaller ratio. */
  lemma RatioMonotone(n: nat, n': nat, d: nat)
    requires n <= n'
    ensures Ratio(n, d) <= Ratio(n', d)
  {
    if d > 0 {
      SignOfQuotient(Ratio(n', d) - Ratio(n, d), d as real, (n' - n) as real);
    }
  }

  /**
    The per-example micro F1: true positives over the reference spans give
    recall, over the predicted spans give precision, and F1 is their
    harmonic mean. It is never negative, is 0 when either side has no span,
    and (for a threshold of at least 1/2 and ordered span lists) is at most 1.
   */
  function ExampleF1(ps: seq<Span>, ts: seq<Span>, threshold: real): (f: real)
    ensures 0.0 <= f
    ensures |ps| == 0 || |ts| == 0 ==> f == 0.0
    ensures Ordered(ps) && Ordered(ts) && threshold >= 0.5 ==> f <= 1.0
  {
    var tp := TruePositives(ps, ts, threshold);
    var recall := Ratio(tp, |ts|);
    var precision := Ratio(tp, |ps|);
    assert Ordered(ps) && Ordered(ts) && threshold >= 0.5 ==> recall <= 1.0 by {
      if Ordered(ps) && Ordered(ts) && threshold >= 0.5 {
        TruePositivesAtMostReferences(ps, ts, threshold);
      }
    }
    F1(recall, precision)
  }

  /** Raising the threshold never raises the per-example F1. */
  lemma ExampleF1Antitone(ps: seq<Span>, ts: seq<Span>, low: real, high: real)
    requires low <= high
    ensures ExampleF1(ps, ts, high) <= ExampleF1(ps, ts, low)
  {
    var tpHigh := TruePositives(ps, ts, high);
    var tpLow := TruePositives(ps, ts, low);
    TruePositivesAntitone(ps, ts, low, high);
    RatioMonotone(tpHigh, tpLow, |ts|);
    RatioMonotone(tpHigh, tpLow, |ps|);
    F1Monotone(Ratio(tpHigh, |ts|), Ratio(tpHigh, |ps|), Ratio(tpLow, |ts|), Ratio(tpLow, |ps|));
  }

  /** Identical predicted and reference span lists of non-empty spans score 1 for any threshold up to 1. */
  lemma ExampleF1OfIdentical(ps: seq<Span>, threshold: real)
    requires |ps| > 0 && threshold <= 1.0
    requires forall k :: 0 <= k < |ps| ==> ps[k].start < ps[k].end
    ensures ExampleF1(ps, ps, threshold) == 1.0
  {
    TruePositivesOfContained(ps, ps, threshold);
  }

  function Sum(xs: seq<real>): real {
    if |xs| == 0 then 0.0 else Sum(xs[..|xs| - 1]) + xs[|xs| - 1]
  }

  /** Arithmetic mean of a non-empty sequence (`np.mean`). */
  function Mean(xs: seq<real>): (m: real)
    requires |xs| > 0
  {
    Sum(xs) / |xs| as real
  }

  lemma {:induction false} SumAtLeast(xs: seq<real>, lo: real)
    requires forall i :: 0 <= i < |xs| ==> lo <= xs[i]
    ensures |xs| as real * lo <= Sum(xs)
  {
    if |xs| > 0 {
      SumAtLeast(xs[..|xs| - 1], lo);
    }
  }

  lemma {:induction false} SumAtMost(xs: seq<real>, hi: real)
    requires forall i :: 0 <= i < |xs| ==> xs[i] <= hi
    ensures Sum(xs) <= |xs| as real * hi
  {
    if |xs| > 0 {
      SumAtMost(xs[..|xs| - 1], hi);
    }
  }

  /** The mean of values that are all at least `lo` is at least `lo`. */
  lemma MeanAtLeast(xs: seq<real>, lo: real)
    requires |xs| > 0
    requires forall i :: 0 <= i < |xs| ==> lo <= xs[i]
    ensures lo <= Mean(xs)
  {
    SumAtLeast(xs, lo);
    SignOfQuotient(Mean(xs) - lo, |xs| as real, Sum(xs) - |xs| as real * lo);
  }

  /** The mean of values that are all at most `hi` is at most `hi`. */
  lemma MeanAtMost(xs: seq<real>, hi: real)
    requires |xs| > 0
    requires forall i :: 0 <= i < |xs| ==> xs[i] <= hi
    ensures Mean(xs) <= hi
  {
    SumAtMost(xs, hi);
    SignOfQuotient(hi - Mean(xs), |xs| as real, |xs| as real * hi - Sum(xs));
  }

  /** Why a batch cannot be scored. */
  datatype BatchError =
    | EmptyBatch        // `np.mean` of no values (NaN in the source)
    | IndexOutOfRange   // `labels[idx]` or `lens[idx]` is missing for some example

  datatype Result = Ok(value: real) | Err(error: BatchError)

  /**
    The score of one example: trim both tag sequences with the example's
    length, extract spans with the given terminal convention, and take the
    micro F1 of the predicted against the reference spans.
   */
  function ExampleScore(pred: seq<int>, reference: seq<int>, length: int, threshold: real, c: Convention): (f: real)
    ensures 0.0 <= f
    ensures threshold >= 0.5 ==> f <= 1.0
  {
    ExampleF1(ExtractSpans(Trim(pred, length), c), ExtractSpans(Trim(reference, length), c), threshold)
  }

  function ExampleScores(preds: seq<seq<int>>, labels: seq<seq<int>>, lens: seq<int>, threshold: real, c: Convention): (fs: seq<real>)
    requires |preds| <= |labels| && |preds| <= |lens|
  {
    seq(|preds|, i requires 0 <= i < |preds| => ExampleScore(preds[i], labels[i], lens[i], threshold, c))
  }

  /**
    `iou_f1` on a batch of predicted tag sequences (already reduced by argmax),
    reference tag sequences and valid lengths: the mean of the per-example
    scores. An empty batch has no mean; an example without a label or a length
    is an indexing error. Every score is non-negative, and with a threshold
    of at least 1/2 the batch score lies in [0, 1].
   */
  function IouF1(preds: seq<seq<int>>, labels: seq<seq<int>>, lens: seq<int>, threshold: real, c: Convention): (r: Result)
    ensures r == Err(EmptyBatch) <==> |preds| == 0
    ensures r == Err(IndexOutOfRange) <==> 0 < |preds| && (|labels| < |preds| || |lens| < |preds|)
    ensures r.Ok? ==> 0.0 <= r.value
    ensures r.Ok? && threshold >= 0.5 ==> r.value <= 1.0
  {
    if |preds| == 0 then Err(EmptyBatch)
    else if |labels| < |preds| || |lens| < |preds| then Err(IndexOutOfRange)
    else
      var scores := ExampleScores(preds, labels, lens, threshold, c);
      assert 0.0 <= Mean(scores) by {
        MeanAtLeast(scores, 0.0);
      }
      assert threshold >= 0.5 ==> Mean(scores) <= 1.0 by {
        if threshold >= 0.5 {
          MeanAtMost(scores, 1.0);
        }
      }
      Ok(Mean(scores))
  }
}
