/**
  Ordinal binning of a continuous prediction: its label is the first index
  whose bound the prediction falls below, or the last label when it
  reaches every bound. The source writes this as a loop that walks the
  bounds from last to first and keeps overwriting the label; here the same
  loop is a method, proved equal to an upward reference search.
 */
module Binning {
  // For `Max`, which the range lemma below shares with the span code.
  import opened Spans

  /**
    Reference search from position `lo`: the first `b >= lo` with
    `x < bounds[b]`, or `numLabels - 1` when there is none.
   */
  function FirstAbove(x: real, bounds: seq<real>, lo: nat, numLabels: int): (bin: int)
    requires lo <= |bounds|
    ensures || (lo <= bin < |bounds| && x < bounds[bin]
                && forall b :: lo <= b < bin ==> bounds[b] <= x)
            || (bin == numLabels - 1 && forall b :: lo <= b < |bounds| ==> bounds[b] <= x)
    decreases |bounds| - lo
  {
    if lo == |bounds| then numLabels - 1
    else if x < bounds[lo] then lo
    else FirstAbove(x, bounds, lo + 1, numLabels)
  }

  /**
    The label of prediction `x`: the smallest index whose bound exceeds `x`
    when one does, and `numLabels - 1` otherwise.
   */
  function Bin(x: real, bounds: seq<real>, numLabels: int): (bin: int)
    ensures (exists b :: 0 <= b < |bounds| && x < bounds[b]) ==>
              && 0 <= bin < |bounds| && x < bounds[bin]
              && forall b :: 0 <= b < bin ==> bounds[b] <= x
    ensures (forall b :: 0 <= b < |bounds| ==> bounds[b] <= x) ==> bin == numLabels - 1
  {
    FirstAbove(x, bounds, 0, numLabels)
  }

  /**
    The loop of the source: start from the last label and, walking the
    bounds downwards, take every index whose bound exceeds `x`; the last
    one taken is the smallest.
   */
  method BinLabel(x: real, bounds: seq<real>, numLabels: int) returns (bin: int)
    ensures bin == Bin(x, bounds, numLabels)
  {
    bin := numLabels - 1;
    var b := |bounds| - 1;
    while b >= 0
      invariant -1 <= b < |bounds|
      invariant bin == FirstAbove(x, bounds, b + 1, numLabels)
    {
      if x < bounds[b] {
        bin := b;
      }
      b := b - 1;
    }
  }

  /** Bin every prediction of a batch, in order (`pred_convert`). */
  method ConvertPredictions(preds: seq<real>, bounds: seq<real>, numLabels: int) returns (labels: seq<int>)
    ensures |labels| == |preds|
    ensures forall i :: 0 <= i < |preds| ==> labels[i] == Bin(preds[i], bounds, numLabels)
  {
    labels := [];
    var i := 0;
    while i < |preds|
      invariant 0 <= i <= |preds|
      invariant |labels| == i
      invariant forall k :: 0 <= k < i ==> labels[k] == Bin(preds[k], bounds, numLabels)
    {
      var bin := BinLabel(preds[i], bounds, numLabels);
      labels := labels + [bin];
      i := i + 1;
    }
  }

  /**
    A larger prediction never gets a smaller label, whether or not the bounds
    are sorted, provided there are no more bounds than labels.
   */
  lemma BinMonotone(x: real, y: real, bounds: seq<real>, numLabels: int)
    requires x <= y
    requires |bounds| <= numLabels
    ensures Bin(x, bounds, numLabels) <= Bin(y, bounds, numLabels)
  {
    var ly := Bin(y, bounds, numLabels);
    if exists b :: 0 <= b < |bounds| && y < bounds[b] {
      assert x < bounds[ly];
    }
  }

  /**
    With at least one label, every label lies in [0, max(|bounds| - 1, numLabels - 1)];
    with no more bounds than labels, that is a valid label index.
   */
  lemma BinInRange(x: real, bounds: seq<real>, numLabels: int)
    requires 1 <= numLabels
    ensures 0 <= Bin(x, bounds, numLabels) <= Max(|bounds| - 1, numLabels - 1)
    ensures |bounds| <= numLabels ==> Bin(x, bounds, numLabels) < numLabels
  {
  }
}
