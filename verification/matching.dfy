/**
  Thresholding best-IoU values into true positives.

  The source records the best IoU of every predicted span in a dictionary
  keyed by the span and counts the values that reach the threshold. Extracted
  spans are pairwise distinct, so the count can be taken over the span list;
  `TruePositivesCountsKeys` shows the two agree.
 */
module Matching {
  import opened Spans
  import opened Overlap

  /** Number of predicted spans whose best IoU against `ts` is at least `threshold` (inclusive). */
  function TruePositives(ps: seq<Span>, ts: seq<Span>, threshold: real): (n: nat)
    ensures n <= |ps|
    ensures threshold <= 0.0 ==> n == |ps|
    ensures threshold > 1.0 || (|ts| == 0 && threshold > 0.0) ==> n == 0
  {
    if |ps| == 0 then 0
    else (if BestIou(ps[0], ts) >= threshold then 1 else 0) + TruePositives(ps[1..], ts, threshold)
  }

  /** The predicted spans that are dictionary keys with a best IoU reaching the threshold. */
  ghost function MatchedKeys(ps: seq<Span>, ts: seq<Span>, threshold: real): set<Span> {
    set p | p in ps && BestIou(p, ts) >= threshold
  }

  /**
    For pairwise distinct spans, counting over the list equals counting the
    distinct dictionary keys whose value reaches the threshold.
   */
  lemma {:induction false} TruePositivesCountsKeys(ps: seq<Span>, ts: seq<Span>, threshold: real)
    requires forall i, j :: 0 <= i < j < |ps| ==> ps[i] != ps[j]
    ensures TruePositives(ps, ts, threshold) == |MatchedKeys(ps, ts, threshold)|
  {
    if |ps| > 0 {
      var rest := ps[1..];
      DistinctTail(ps);
      TruePositivesCountsKeys(rest, ts, threshold);
      MatchedKeysCons(ps, ts, threshold);
    }
  }

  lemma DistinctTail(ps: seq<Span>)
    requires |ps| > 0
    requires forall i, j :: 0 <= i < j < |ps| ==> ps[i] != ps[j]
    ensures forall i, j :: 0 <= i < j < |ps[1..]| ==> ps[1..][i] != ps[1..][j]
    ensures ps[0] !in ps[1..]
  {
    var rest := ps[1..];
    assert forall i :: 0 <= i < |rest| ==> rest[i] == ps[i + 1];
  }

  lemma MatchedKeysCons(ps: seq<Span>, ts: seq<Span>, threshold: real)
    requires |ps| > 0
    ensures var rest := MatchedKeys(ps[1..], ts, threshold);
            MatchedKeys(ps, ts, threshold) == if BestIou(ps[0], ts) >= threshold then {ps[0]} + rest else rest
  {
    assert ps == [ps[0]] + ps[1..];
  }

  /** Raising the threshold never increases the true-positive count. */
  lemma {:induction false} TruePositivesAntitone(ps: seq<Span>, ts: seq<Span>, low: real, high: real)
    requires low <= high
    ensures TruePositives(ps, ts, high) <= TruePositives(ps, ts, low)
  {
    if |ps| > 0 {
      TruePositivesAntitone(ps[1..], ts, low, high);
    }
  }

  /**
    Two spans separated by a gap cannot both have IoU of at least 1/2 with the
    same span: each would need at least half of it, and the gap is inside it.
   */
  lemma HalfOverlapExclusive(p: Span, q: Span, t: Span)
    requires p.end < q.start
    requires IoU(p, t) >= 0.5
    ensures IoU(q, t) < 0.5
  {
    HalfMeansHalf(p, t);
    if IoU(q, t) >= 0.5 {
      HalfMeansHalf(q, t);
      assert false;
    }
  }

  /** An IoU of at least 1/2 means the intersection is at least half the union. */
  lemma HalfMeansHalf(p: Span, t: Span)
    requires IoU(p, t) >= 0.5
    ensures 2 * Inter(p, t) >= UnionLen(p, t) > 0
  {
    var i := Inter(p, t);
    var u := UnionLen(p, t);
    var r := Ratio01(i, u);
    assert IoU(p, t) == r;
    ProductSign(r - 0.5, u as real);
    assert (r - 0.5) * u as real == i as real - 0.5 * u as real;
  }

  /**
    Overlaps cannot cross: if `p` ends before `q` starts, `t` ends before
    `w` starts and `p` overlaps `w`, then `q` does not overlap `t`.
   */
  lemma NoCrossing(p: Span, q: Span, t: Span, w: Span)
    requires p.end < q.start && t.end < w.start
    requires Inter(p, w) > 0
    ensures Inter(q, t) == 0
  {
  }

  /** No span of `ps` reaches the threshold with any of the first `m` reference spans. */
  predicate NoneReach(ps: seq<Span>, ts: seq<Span>, m: nat, threshold: real)
    requires m <= |ts|
  {
    forall k, i :: 0 <= k < |ps| && 0 <= i < m ==> IoU(ps[k], ts[i]) < threshold
  }

  lemma NoneReachTail(ps: seq<Span>, ts: seq<Span>, m: nat, threshold: real)
    requires 0 < |ps| && m <= |ts|
    requires NoneReach(ps, ts, m, threshold)
    ensures NoneReach(ps[1..], ts, m, threshold)
    ensures forall i :: 0 <= i < m ==> IoU(ps[0], ts[i]) < threshold
  {
    assert forall k :: 0 <= k < |ps[1..]| ==> ps[1..][k] == ps[k + 1];
  }

  /** Dropping reference spans that no predicted span reaches the threshold with leaves the count unchanged. */
  lemma {:induction false} TruePositivesDropPrefix(ps: seq<Span>, ts: seq<Span>, m: nat, threshold: real)
    requires 0.0 < threshold
    requires m <= |ts|
    requires NoneReach(ps, ts, m, threshold)
    ensures TruePositives(ps, ts, threshold) == TruePositives(ps, ts[m..], threshold)
  {
    if |ps| > 0 {
      var p := ps[0];
      BestIouReaches(p, ts, threshold);
      BestIouReaches(p, ts[m..], threshold);
      if BestIou(p, ts) >= threshold {
        var k :| 0 <= k < |ts| && IoU(p, ts[k]) >= threshold;
        assert ts[m..][k - m] == ts[k];
      }
      if BestIou(p, ts[m..]) >= threshold {
        var k :| 0 <= k < |ts[m..]| && IoU(p, ts[m..][k]) >= threshold;
        assert ts[m..][k] == ts[k + m];
      }
      NoneReachTail(ps, ts, m, threshold);
      TruePositivesDropPrefix(ps[1..], ts, m, threshold);
    }
  }

  /**
    With a threshold of at least 1/2, every reference span is matched by at
    most one predicted span, so the true positives never outnumber the
    reference spans and recall stays within [0, 1].
   */
  lemma {:induction false} TruePositivesAtMostReferences(ps: seq<Span>, ts: seq<Span>, threshold: real)
    requires Ordered(ps) && Ordered(ts)
    requires threshold >= 0.5
    ensures TruePositives(ps, ts, threshold) <= |ts|
    decreases |ps|, 1
  {
    if |ps| > 0 {
      if BestIou(ps[0], ts) < threshold {
        OrderedSuffix(ps, 1);
        TruePositivesAtMostReferences(ps[1..], ts, threshold);
      } else {
        var j := MatchWitness(ps[0], ts, threshold);
        MatchedHeadAtMostReferences(ps, ts, j, threshold);
      }
    }
  }

  /** The case of `TruePositivesAtMostReferences` where the first predicted span matches reference span `j`. */
  lemma {:induction false} MatchedHeadAtMostReferences(ps: seq<Span>, ts: seq<Span>, j: nat, threshold: real)
    requires Ordered(ps) && Ordered(ts)
    requires threshold >= 0.5
    requires 0 < |ps| && j < |ts| && IoU(ps[0], ts[j]) >= threshold
    ensures TruePositives(ps, ts, threshold) <= |ts|
    decreases |ps|, 0
  {
    MatchedHeadSkipsReferences(ps, ts, j, threshold);
    OrderedSuffix(ps, 1);
    OrderedSuffix(ts, j + 1);
    TruePositivesAtMostReferences(ps[1..], ts[j + 1..], threshold);
  }

  /** A reference span with which `p` reaches a positive threshold its best IoU reaches. */
  lemma MatchWitness(p: Span, ts: seq<Span>, threshold: real) returns (j: nat)
    requires 0.0 < threshold <= BestIou(p, ts)
    ensures j < |ts| && IoU(p, ts[j]) >= threshold
  {
    BestIouReaches(p, ts, threshold);
    j :| 0 <= j < |ts| && IoU(p, ts[j]) >= threshold;
  }

  /**
    When the first predicted span reaches the threshold with reference span
    `j`, the remaining predicted spans count the same against the reference
    spans after `j` alone.
   */
  lemma MatchedHeadSkipsReferences(ps: seq<Span>, ts: seq<Span>, j: nat, threshold: real)
    requires Ordered(ps) && Ordered(ts)
    requires threshold >= 0.5
    requires 0 < |ps| && j < |ts| && IoU(ps[0], ts[j]) >= threshold
    ensures TruePositives(ps, ts, threshold) == 1 + TruePositives(ps[1..], ts[j + 1..], threshold)
  {
    LaterMissEarlierReferences(ps, ts, j, threshold);
    TruePositivesDropPrefix(ps[1..], ts, j + 1, threshold);
  }

  /**
    If the first predicted span reaches the threshold (at least 1/2) with
    reference span `j`, no later predicted span reaches it with reference
    spans `0..j`.
   */
  lemma LaterMissEarlierReferences(ps: seq<Span>, ts: seq<Span>, j: nat, threshold: real)
    requires Ordered(ps) && Ordered(ts)
    requires threshold >= 0.5
    requires 0 < |ps| && j < |ts| && IoU(ps[0], ts[j]) >= threshold
    ensures NoneReach(ps[1..], ts, j + 1, threshold)
  {
    var rest := ps[1..];
    forall k, i | 0 <= k < |rest| && 0 <= i < j + 1
      ensures IoU(rest[k], ts[i]) < threshold
    {
      assert rest[k] == ps[k + 1];
      assert ps[0].end < rest[k].start;
      if i == j {
        HalfOverlapExclusive(ps[0], rest[k], ts[j]);
      } else {
        NoCrossing(ps[0], rest[k], ts[i], ts[j]);
      }
    }
  }

  /**
    Spans that are non-empty and all present among the reference spans are
    each matched with IoU 1, so with a threshold of at most 1 every one of
    them is a true positive.
   */
  lemma {:induction false} TruePositivesOfContained(ps: seq<Span>, ts: seq<Span>, threshold: real)
    requires threshold <= 1.0
    requires forall k :: 0 <= k < |ps| ==> ps[k] in ts && ps[k].start < ps[k].end
    ensures TruePositives(ps, ts, threshold) == |ps|
  {
    if |ps| > 0 {
      assert ps[0] in ts;
      var j :| 0 <= j < |ts| && ts[j] == ps[0];
      assert IoU(ps[0], ts[j]) == 1.0;
      assert forall k :: 0 <= k < |ps[1..]| ==> ps[1..][k] == ps[k + 1];
      TruePositivesOfContained(ps[1..], ts, threshold);
    }
  }
}
