/**
  Span matching: the intersection-over-union of two spans and, for one
  predicted span, the best IoU against every reference span.

  The source measures overlap with sets of token offsets; here the same
  quantities are computed with interval arithmetic, and `IouMatchesPointSets`
  shows the two agree.
 */
module Overlap {
  import opened Spans

  /** Number of offsets in [s.start, s.end), i.e. `len(range(start, end))`. */
  function Len(s: Span): nat {
    if s.start < s.end then s.end - s.start else 0
  }

  /** Number of offsets the two spans share. */
  function Inter(p: Span, q: Span): (n: nat)
    ensures n <= Len(p) && n <= Len(q)
  {
    var lo := Max(p.start, q.start);
    var hi := Min(p.end, q.end);
    if lo < hi then hi - lo else 0
  }

  /** Number of offsets in either span. */
  function UnionLen(p: Span, q: Span): (n: nat)
    ensures Inter(p, q) <= n
    ensures Len(p) <= n && Len(q) <= n
  {
    Len(p) + Len(q) - Inter(p, q)
  }

  /**
    Intersection over union, 0 when the union is empty. It lies in [0, 1],
    is positive exactly when the spans share an offset, and is 1 exactly for
    two identical non-empty spans.
   */
  function IoU(p: Span, q: Span): (r: real)
    ensures 0.0 <= r <= 1.0
    ensures r > 0.0 <==> Inter(p, q) > 0
    ensures r == 1.0 <==> p == q && p.start < p.end
  {
    var u := UnionLen(p, q);
    FullOverlapIsIdentity(p, q);
    if u == 0 then 0.0 else Ratio01(Inter(p, q), u)
  }

  /** `i / u` for 0 <= i <= u and u > 0. */
  function Ratio01(i: nat, u: nat): (r: real)
    requires i <= u && 0 < u
    ensures 0.0 <= r <= 1.0
    ensures r * u as real == i as real
    ensures r > 0.0 <==> i > 0
    ensures r == 1.0 <==> i == u
  {
    var d := u as real;
    var r := i as real / d;
    assert r * d == i as real;
    // Each sign fact below is linear once the products are known.
    ProductSign(r, d);
    ProductSign(-r, d);
    ProductSign(r - 1.0, d);
    ProductSign(1.0 - r, d);
    assert (-r) * d == -(i as real);
    assert (r - 1.0) * d == i as real - d;
    assert (1.0 - r) * d == d - i as real;
    r
  }

  /** The intersection fills the union exactly when the spans are the same non-empty span. */
  lemma FullOverlapIsIdentity(p: Span, q: Span)
    ensures 0 < UnionLen(p, q) == Inter(p, q) <==> p == q && p.start < p.end
  {
  }

  /** The sign of a product of two reals. */
  lemma ProductSign(a: real, b: real)
    ensures 0.0 <= a && 0.0 <= b ==> 0.0 <= a * b
    ensures 0.0 < a && 0.0 < b ==> 0.0 < a * b
  {
  }

  /** IoU does not depend on the order of its arguments. */
  lemma IouSymmetric(p: Span, q: Span)
    ensures IoU(p, q) == IoU(q, p)
  {
    assert Inter(p, q) == Inter(q, p);
  }

  /**
    The offsets of a span, `set(range(start, end))`. The bounds are written
    out so that Dafny sees the set is finite; `InSpan` repeats them as a
    term the quantifier can be triggered on.
   */
  ghost function Points(s: Span): set<int> {
    set i | s.start <= i < s.end && InSpan(s, i)
  }

  predicate InSpan(s: Span, i: int) {
    s.start <= i < s.end
  }

  lemma {:induction false} PointsCard(s: Span)
    ensures |Points(s)| == Len(s)
    decreases Len(s)
  {
    if s.start < s.end {
      var shorter := Span(s.start, s.end - 1);
      PointsCard(shorter);
      assert Points(s) == Points(shorter) + {s.end - 1};
    } else {
      assert Points(s) == {};
    }
  }

  /** The set-based IoU as the source computes it: |P & Q| / |P | Q|, or 0 for an empty union. */
  ghost function PointIoU(p: Span, q: Span): real {
    var u := |Points(p) + Points(q)|;
    if u == 0 then 0.0 else |Points(p) * Points(q)| as real / u as real
  }

  /** Interval arithmetic gives exactly the set-based intersection, union and IoU. */
  lemma IouMatchesPointSets(p: Span, q: Span)
    ensures |Points(p) * Points(q)| == Inter(p, q)
    ensures |Points(p) + Points(q)| == UnionLen(p, q)
    ensures IoU(p, q) == PointIoU(p, q)
  {
    var common := Span(Max(p.start, q.start), Min(p.end, q.end));
    assert Points(p) * Points(q) == Points(common);
    PointsCard(common);
    PointsCard(p);
    PointsCard(q);
    assert |Points(p) + Points(q)| + |Points(p) * Points(q)| == |Points(p)| + |Points(q)|;
  }

  /**
    The matching loop for one predicted span: starting from `best`, each
    reference span replaces the running best when its IoU is strictly larger.
    The result is at least `best`, at least every IoU seen, and is either
    `best` or one of those IoUs.
   */
  function BestFrom(p: Span, ts: seq<Span>, best: real): (r: real)
    ensures best <= r
    ensures forall k :: 0 <= k < |ts| ==> IoU(p, ts[k]) <= r
    ensures r == best || exists k :: 0 <= k < |ts| && r == IoU(p, ts[k])
    decreases |ts|
  {
    if |ts| == 0 then best
    else
      var iou := IoU(p, ts[0]);
      var r := BestFrom(p, ts[1..], if iou > best then iou else best);
      assert forall k :: 1 <= k < |ts| ==> ts[k] == ts[1..][k - 1];
      r
  }

  /**
    The best IoU recorded for a predicted span: the maximum IoU against the
    reference spans, 0 when there are none.
   */
  function BestIou(p: Span, ts: seq<Span>): (r: real)
    ensures 0.0 <= r <= 1.0
    ensures forall k :: 0 <= k < |ts| ==> IoU(p, ts[k]) <= r
    ensures |ts| == 0 ==> r == 0.0
    ensures |ts| > 0 ==> exists k :: 0 <= k < |ts| && r == IoU(p, ts[k])
  {
    var r := BestFrom(p, ts, 0.0);
    assert |ts| > 0 && r == 0.0 ==> r == IoU(p, ts[0]);
    r
  }

  /**
    For a positive threshold, the best IoU reaches it exactly when some
    reference span's IoU does.
   */
  lemma BestIouReaches(p: Span, ts: seq<Span>, threshold: real)
    requires 0.0 < threshold
    ensures BestIou(p, ts) >= threshold <==> exists k :: 0 <= k < |ts| && IoU(p, ts[k]) >= threshold
  {
  }
}
