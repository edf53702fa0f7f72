/**
  Span extraction for rationale scoring.

  A tag sequence holds one integer per token; a maximal run of 1s is a
  rationale span. The scan keeps an explicit marker (`Closed` or
  `Open(start)`) in place of the source's `-1` sentinel, and is written once
  for both the predicted and the reference side.
 */
module Spans {

  /** A half-open interval [start, end) of token offsets into a trimmed sequence. */
  datatype Span = Span(start: int, end: int)

  /** Whether a run of 1s is currently open, and at which offset it began. */
  datatype Marker = Closed | Open(start: int)

  /** The state threaded through the scan: the marker and the spans emitted so far. */
  datatype ScanState = ScanState(marker: Marker, spans: seq<Span>)

  /** How a run that is still open when the sequence ends is closed. */
  datatype Convention =
    | AsWritten   // end = index of the last position visited, |t| - 1
    | Corrected   // end = |t|, so the run keeps its last token

  function Min(a: int, b: int): int { if a <= b then a else b }

  function Max(a: int, b: int): int { if a <= b then b else a }

  /**
    Python's `s[1:][:n]`: drop the reserved first token, then keep the first
    `n` of the rest. Slicing never fails: a length beyond the end keeps
    everything, and a negative `n` drops `-n` tokens from the end.
   */
  function Trim(s: seq<int>, n: int): (t: seq<int>)
    ensures |s| == 0 ==> t == []
    ensures 0 <= n ==> |t| == Min(n, Max(|s| - 1, 0))
    ensures n < 0 ==> |t| == Max(|s| - 1 + n, 0)
    ensures forall i :: 0 <= i < |t| ==> t[i] == s[i + 1]
  {
    if |s| == 0 then []
    else
      var rest := s[1..];
      if 0 <= n then rest[..Min(n, |rest|)] else rest[..Max(|rest| + n, 0)]
  }

  /** Every tag is 0 or 1 (what a binary argmax produces). */
  predicate IsBinary(t: seq<int>) {
    forall i :: 0 <= i < |t| ==> t[i] == 0 || t[i] == 1
  }

  /** Some offset below `n` holds a 1. */
  predicate HasPositive(t: seq<int>, n: int)
    requires n <= |t|
  {
    exists i :: 0 <= i < n && t[i] == 1
  }

  /**
    A span list as the extractor produces it: every span has start <= end,
    and each span ends strictly before the next one starts (so starts are
    strictly increasing and the spans are disjoint).
   */
  predicate Ordered(spans: seq<Span>) {
    && (forall k :: 0 <= k < |spans| ==> spans[k].start <= spans[k].end)
    && (forall i, j :: 0 <= i < j < |spans| ==> spans[i].end < spans[j].start)
  }

  /** Offset `i` lies inside one of the half-open spans. */
  predicate Covers(spans: seq<Span>, i: int) {
    exists k :: 0 <= k < |spans| && spans[k].start <= i < spans[k].end
  }

  /** One iteration of the scan loop: tag `x` at offset `i`. Tags other than 0 and 1 change nothing. */
  function Step(st: ScanState, i: int, x: int): ScanState {
    if x == 1 then
      if st.marker.Closed? then ScanState(Open(i), st.spans) else st
    else if x == 0 then
      if st.marker.Open? then ScanState(Closed, st.spans + [Span(st.marker.start, i)]) else st
    else
      st
  }

  /**
    What the scan has established after reading `t[..n]`: every emitted span
    opened on a 1 and was closed by the 0 at its end; spans are separated; an
    open run started on a 1, after every emitted span, and has met no 0 since;
    and something was opened exactly when `t[..n]` holds a 1.
   */
  ghost predicate ScanInvariant(t: seq<int>, n: nat, st: ScanState)
    requires n <= |t|
  {
    && (forall k :: 0 <= k < |st.spans| ==>
          0 <= st.spans[k].start < st.spans[k].end < n
          && t[st.spans[k].start] == 1 && t[st.spans[k].end] == 0)
    && (forall i, j :: 0 <= i < j < |st.spans| ==> st.spans[i].end < st.spans[j].start)
    && (st.marker.Open? ==>
          && 0 <= st.marker.start < n
          && t[st.marker.start] == 1
          && (forall k :: 0 <= k < |st.spans| ==> st.spans[k].end < st.marker.start)
          && (forall i :: st.marker.start <= i < n ==> t[i] != 0))
    && (HasPositive(t, n) <==> st.marker.Open? || |st.spans| > 0)
  }

  /** The state of the scan loop after reading the first `n` tags, as a left fold of `Step`. */
  function ScanUpTo(t: seq<int>, n: nat): ScanState
    requires n <= |t|
  {
    if n == 0 then ScanState(Closed, []) else Step(ScanUpTo(t, n - 1), n - 1, t[n - 1])
  }

  /** The scan over the whole of `t`. */
  function Scan(t: seq<int>): ScanState {
    ScanUpTo(t, |t|)
  }

  /** The scan invariant holds after every prefix. */
  lemma {:induction false} ScanUpToInvariant(t: seq<int>, n: nat)
    requires n <= |t|
    ensures ScanInvariant(t, n, ScanUpTo(t, n))
  {
    if n > 0 {
      ScanUpToInvariant(t, n - 1);
      StepKeepsInvariant(t, n, ScanUpTo(t, n - 1));
    }
  }

  /** Reading tag `t[n - 1]` re-establishes the invariant for `t[..n]`. */
  lemma StepKeepsInvariant(t: seq<int>, n: nat, prev: ScanState)
    requires 0 < n <= |t|
    requires ScanInvariant(t, n - 1, prev)
    ensures ScanInvariant(t, n, Step(prev, n - 1, t[n - 1]))
  {
    assert HasPositive(t, n) <==> HasPositive(t, n - 1) || t[n - 1] == 1;
    if t[n - 1] == 0 && prev.marker.Open? {
      CloseKeepsInvariant(t, n, prev);
    }
  }

  /** A 0 that closes the open run appends a span that keeps the list separated. */
  lemma CloseKeepsInvariant(t: seq<int>, n: nat, prev: ScanState)
    requires 0 < n <= |t| && t[n - 1] == 0 && prev.marker.Open?
    requires ScanInvariant(t, n - 1, prev)
    ensures ScanInvariant(t, n, Step(prev, n - 1, t[n - 1]))
  {
    assert t[prev.marker.start] == 1;
    var spans := prev.spans + [Span(prev.marker.start, n - 1)];
    assert forall k :: 0 <= k < |prev.spans| ==> spans[k] == prev.spans[k];
  }

  /**
    What the extractor promises about the spans of `t`: they are ordered and
    disjoint; each starts on a 1 inside `t` and ends at most at `|t| - 1` as
    written (`|t|` corrected); a zero-length span can only be the last one,
    `(|t| - 1, |t| - 1)`, and only as written; and there are no spans
    exactly when `t` holds no 1.
   */
  predicate ExtractedShape(t: seq<int>, c: Convention, spans: seq<Span>) {
    && Ordered(spans)
    && (forall k :: 0 <= k < |spans| ==>
          0 <= spans[k].start <= spans[k].end <= (if c == AsWritten then |t| - 1 else |t|))
    && (forall k :: 0 <= k < |spans| ==> spans[k].start < |t| && t[spans[k].start] == 1)
    && (forall k :: 0 <= k < |spans| && spans[k].start == spans[k].end ==>
          c == AsWritten && k == |spans| - 1 && spans[k] == Span(|t| - 1, |t| - 1))
    && (|spans| == 0 <==> !HasPositive(t, |t|))
  }

  /**
    The spans of `t`: the scan, then a run still open at the end is closed
    according to the convention.
   */
  function ExtractSpans(t: seq<int>, c: Convention): (spans: seq<Span>)
    ensures ExtractedShape(t, c, spans)
  {
    ScanUpToInvariant(t, |t|);
    Close(t, Scan(t), c)
  }

  /** Closes a run still open after reading all of `t`, at `|t| - 1` as written or at `|t|` when corrected. */
  function Close(t: seq<int>, st: ScanState, c: Convention): (spans: seq<Span>)
    requires ScanInvariant(t, |t|, st)
    ensures ExtractedShape(t, c, spans)
  {
    match st.marker
    case Closed => st.spans
    case Open(s) => st.spans + [Span(s, if c == AsWritten then |t| - 1 else |t|)]
  }

  lemma CoversAppend(spans: seq<Span>, sp: Span, i: int)
    ensures Covers(spans + [sp], i) <==> Covers(spans, i) || sp.start <= i < sp.end
  {
    var all := spans + [sp];
    if Covers(spans, i) {
      var k :| 0 <= k < |spans| && spans[k].start <= i < spans[k].end;
      assert all[k] == spans[k];
    }
    if sp.start <= i < sp.end {
      assert all[|spans|] == sp;
    }
    if Covers(all, i) {
      var k :| 0 <= k < |all| && all[k].start <= i < all[k].end;
      if k < |spans| {
        assert all[k] == spans[k];
      }
    }
  }

  /** Offset `i` is inside an emitted span or inside the run still open after reading `t[..n]`. */
  predicate CoveredSoFar(st: ScanState, n: int, i: int) {
    Covers(st.spans, i) || (st.marker.Open? && st.marker.start <= i < n)
  }

  /** The offsets covered after reading `t[..n]` are exactly those below `n` that hold a 1. */
  ghost predicate ExactCoverage(t: seq<int>, n: nat, st: ScanState)
    requires n <= |t|
  {
    forall i :: CoveredSoFar(st, n, i) <==> (0 <= i < n && t[i] == 1)
  }

  /**
    On a 0/1 sequence, after reading `t[..n]` the emitted spans together with
    the open run cover exactly the offsets below `n` that hold a 1.
   */
  lemma {:induction false} ScanCoverage(t: seq<int>, n: nat)
    requires n <= |t|
    requires IsBinary(t)
    ensures ExactCoverage(t, n, ScanUpTo(t, n))
  {
    if n > 0 {
      ScanUpToInvariant(t, n - 1);
      ScanCoverage(t, n - 1);
      StepCoverage(t, n, ScanUpTo(t, n - 1));
    }
  }

  /** One step of `ScanCoverage`: reading tag `t[n - 1]` keeps the coverage exact. */
  lemma StepCoverage(t: seq<int>, n: nat, prev: ScanState)
    requires 0 < n <= |t|
    requires IsBinary(t)
    requires ScanInvariant(t, n - 1, prev)
    requires ExactCoverage(t, n - 1, prev)
    ensures ExactCoverage(t, n, Step(prev, n - 1, t[n - 1]))
  {
    if t[n - 1] == 0 && prev.marker.Open? {
      CloseStepCoverage(t, n, prev);
    } else {
      KeepStepCoverage(t, n, prev);
    }
  }

  /** The other cases of `StepCoverage`: no span is emitted, and a 1 opens or extends the run. */
  lemma KeepStepCoverage(t: seq<int>, n: nat, prev: ScanState)
    requires 0 < n <= |t|
    requires IsBinary(t)
    requires !(t[n - 1] == 0 && prev.marker.Open?)
    requires ScanInvariant(t, n - 1, prev)
    requires ExactCoverage(t, n - 1, prev)
    ensures ExactCoverage(t, n, Step(prev, n - 1, t[n - 1]))
  {
    var cur := Step(prev, n - 1, t[n - 1]);
    assert cur.spans == prev.spans;
    if t[n - 1] == 1 {
      assert cur.marker.Open? && cur.marker.start <= n - 1;
    } else {
      assert cur.marker == Closed && prev.marker == Closed;
    }
    forall i | true
      ensures CoveredSoFar(cur, n, i) <==> (0 <= i < n && t[i] == 1)
    {
      assert CoveredSoFar(prev, n - 1, i) <==> (0 <= i < n - 1 && t[i] == 1);
    }
  }

  /** The closing case of `StepCoverage`: the new span takes over exactly the offsets of the open run. */
  lemma CloseStepCoverage(t: seq<int>, n: nat, prev: ScanState)
    requires 0 < n <= |t| && t[n - 1] == 0 && prev.marker.Open?
    requires ScanInvariant(t, n - 1, prev)
    requires ExactCoverage(t, n - 1, prev)
    ensures ExactCoverage(t, n, Step(prev, n - 1, t[n - 1]))
  {
    var cur := Step(prev, n - 1, t[n - 1]);
    var sp := Span(prev.marker.start, n - 1);
    assert cur.spans == prev.spans + [sp] && cur.marker == Closed;
    forall i | true
      ensures CoveredSoFar(cur, n, i) <==> (0 <= i < n && t[i] == 1)
    {
      assert CoveredSoFar(prev, n - 1, i) <==> (0 <= i < n - 1 && t[i] == 1);
      CoversAppend(prev.spans, sp, i);
    }
  }

  /**
    As written, on a 0/1 sequence of length L the spans cover exactly the
    offsets i < L - 1 that hold a 1: the last offset is never covered, even
    when it holds a 1.
   */
  lemma CoverageAsWritten(t: seq<int>)
    requires IsBinary(t)
    ensures forall i :: Covers(ExtractSpans(t, AsWritten), i) <==> (0 <= i < |t| - 1 && t[i] == 1)
  {
    ScanCoverage(t, |t|);
    ScanUpToInvariant(t, |t|);
    CloseCoverage(t, Scan(t), AsWritten);
  }

  /** With the corrected terminal convention the spans cover exactly the offsets holding a 1. */
  lemma CoverageCorrected(t: seq<int>)
    requires IsBinary(t)
    ensures forall i :: Covers(ExtractSpans(t, Corrected), i) <==> (0 <= i < |t| && t[i] == 1)
  {
    ScanCoverage(t, |t|);
    ScanUpToInvariant(t, |t|);
    CloseCoverage(t, Scan(t), Corrected);
  }

  lemma CloseCoverage(t: seq<int>, st: ScanState, c: Convention)
    requires IsBinary(t)
    requires ScanInvariant(t, |t|, st)
    requires ExactCoverage(t, |t|, st)
    ensures c == AsWritten ==>
              forall i :: Covers(Close(t, st, c), i) <==> (0 <= i < |t| - 1 && t[i] == 1)
    ensures c == Corrected ==>
              forall i :: Covers(Close(t, st, c), i) <==> (0 <= i < |t| && t[i] == 1)
  {
    var n := |t|;
    match st.marker
    case Closed =>
      if n > 0 {
        assert !CoveredSoFar(st, n, n - 1);
      }
    case Open(s) =>
      var end := if c == AsWritten then n - 1 else n;
      assert Close(t, st, c) == st.spans + [Span(s, end)];
      OpenRunCoverage(st, n, end);
  }

  /** Closing the open run at `end` covers what the scan covered, cut off at `end`. */
  lemma OpenRunCoverage(st: ScanState, n: int, end: int)
    requires st.marker.Open? && st.marker.start <= end <= n
    requires forall k :: 0 <= k < |st.spans| ==> st.spans[k].end <= st.marker.start
    ensures forall i :: Covers(st.spans + [Span(st.marker.start, end)], i) <==> CoveredSoFar(st, n, i) && i < end
  {
    var s := st.marker.start;
    forall i | true
      ensures Covers(st.spans + [Span(s, end)], i) <==> CoveredSoFar(st, n, i) && i < end
    {
      CoversAppend(st.spans, Span(s, end), i);
      if Covers(st.spans, i) {
        var k :| 0 <= k < |st.spans| && st.spans[k].start <= i < st.spans[k].end;
        assert i < s <= end;
      }
    }
  }

  /**
    If `t[s..n]` is a run of 1s that starts the sequence or follows a 0, the
    scan of `t[..n]` ends with that run open at `s`.
   */
  lemma {:induction false} ScanEndsInRun(t: seq<int>, s: int, n: nat)
    requires 0 <= s < n <= |t|
    requires s == 0 || t[s - 1] == 0
    requires forall i :: s <= i < n ==> t[i] == 1
    ensures ScanUpTo(t, n).marker == Open(s)
  {
    if n - 1 > s {
      ScanEndsInRun(t, s, n - 1);
    }
  }

  /**
    A trailing run of 1s starting at `s` is the last span: (s, L - 1) as
    written, (s, L) when corrected. In particular a lone trailing 1 after a 0
    gives the zero-length span (L - 1, L - 1) as written.
   */
  lemma TerminalSpan(t: seq<int>, s: int)
    requires 0 <= s < |t|
    requires s == 0 || t[s - 1] == 0
    requires forall i :: s <= i < |t| ==> t[i] == 1
    ensures var a := ExtractSpans(t, AsWritten);
            |a| > 0 && a[|a| - 1] == Span(s, |t| - 1)
    ensures var c := ExtractSpans(t, Corrected);
            |c| > 0 && c[|c| - 1] == Span(s, |t|)
  {
    ScanEndsInRun(t, s, |t|);
  }

  /** Every suffix of an ordered span list is ordered. */
  lemma OrderedSuffix(spans: seq<Span>, lo: nat)
    requires Ordered(spans)
    requires lo <= |spans|
    ensures Ordered(spans[lo..])
  {
    var part := spans[lo..];
    assert forall k :: 0 <= k < |part| ==> part[k] == spans[lo + k];
  }

  /** Spans of an ordered list are pairwise distinct, so none collapses when used as a dictionary key. */
  lemma OrderedDistinct(spans: seq<Span>)
    requires Ordered(spans)
    ensures forall i, j :: 0 <= i < j < |spans| ==> spans[i] != spans[j]
  {
    forall i, j | 0 <= i < j < |spans|
      ensures spans[i] != spans[j]
    {
      assert spans[i].start <= spans[i].end < spans[j].start;
    }
  }
}
