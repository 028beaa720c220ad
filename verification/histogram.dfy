/** The histogram threshold used by automatic range styles
    (large_image/tilesource/utilities.py:968-1004): the bin edge that cuts
    off no more than a given fraction of the samples from the low end, or
    from the high end when `fromMax` is set.  Bin counts and edges are
    exact reals here, not floating point. */
module Histogram {
  import opened Wrappers

  /** A histogram record for one channel: `hist[i]` counts the samples
      between `edges[i]` and `edges[i + 1]`. */
  datatype Record = Record(
    hist: seq<real>, edges: seq<real>, samples: real, density: bool, min: real, max: real)

  /** The shape numpy's histogram produces: one more edge than bins. */
  predicate WellFormed(h: Record) {
    |h.edges| == |h.hist| + 1
  }

  /** `s` back to front. */
  function Reverse(s: seq<real>): (r: seq<real>)
    ensures |r| == |s|
    ensures forall i | 0 <= i < |s| :: r[i] == s[|s| - 1 - i]
  {
    if s == [] then [] else Reverse(s[1..]) + [s[0]]
  }

  /** The total of the first `n` bins. */
  function Prefix(s: seq<real>, n: nat): real
    requires n <= |s|
  {
    if n == 0 then 0.0 else Prefix(s, n - 1) + s[n - 1]
  }

  /** The running total through bin `j`. */
  function Running(s: seq<real>, j: nat): real
    requires j < |s|
  {
    Prefix(s, j + 1)
  }

  /** Bin `i` is the first whose running total passes `limit`. */
  predicate FirstOver(s: seq<real>, limit: real, i: nat) {
    && i < |s|
    && Running(s, i) > limit
    && forall j | 0 <= j < i :: Running(s, j) <= limit
  }

  /** No running total passes `limit`. */
  predicate NeverOver(s: seq<real>, limit: real) {
    forall j | 0 <= j < |s| :: Running(s, j) <= limit
  }

  /** The first bin whose running total passes `limit`, scanning from bin
      `i` with `tally` counted so far. */
  function Scan(s: seq<real>, limit: real, i: nat, tally: real): (r: Option<nat>)
    requires i <= |s| && tally == Prefix(s, i)
    requires forall j | 0 <= j < i :: Running(s, j) <= limit
    ensures r.Some? ==> FirstOver(s, limit, r.value)
    ensures r.None? ==> NeverOver(s, limit)
    decreases |s| - i
  {
    if i == |s| then None
    else if tally + s[i] > limit then Some(i)
    else Scan(s, limit, i + 1, tally + s[i])
  }

  /** The samples the threshold is a fraction of: one for a density. */
  function Samples(h: Record): real {
    if h.density then 1.0 else h.samples
  }

  /** The bins and edges in the order they are scanned. */
  function Bins(h: Record, fromMax: bool): seq<real> {
    if fromMax then Reverse(h.hist) else h.hist
  }

  function Edges(h: Record, fromMax: bool): seq<real> {
    if fromMax then Reverse(h.edges) else h.edges
  }

  /** The value reported when the very first bin passes the limit. */
  function Extreme(h: Record, fromMax: bool): real {
    if fromMax then h.max else h.min
  }

  /** The edge the scan stops at, given the first bin that passes the
      limit: the extreme value itself when that is the first bin. */
  function EdgeAt(edges: seq<real>, extreme: real, first: Option<nat>): real
    requires |edges| >= 1
    requires first.Some? ==> first.value < |edges|
  {
    match first
    case None => edges[|edges| - 1]
    case Some(i) => if i == 0 then extreme else edges[i]
  }

  /** `histogramThreshold`, as the loop of the source. */
  method Threshold(h: Record, threshold: real, fromMax: bool) returns (result: real)
    requires WellFormed(h)
    ensures var s, limit := Bins(h, fromMax), threshold * Samples(h);
            || (exists i :: FirstOver(s, limit, i) && result == EdgeAt(Edges(h, fromMax), Extreme(h, fromMax), Some(i)))
            || (NeverOver(s, limit) && result == EdgeAt(Edges(h, fromMax), Extreme(h, fromMax), None))
  {
    var hist := Bins(h, fromMax);
    var edges := Edges(h, fromMax);
    var limit := threshold * Samples(h);
    var tally := 0.0;
    result := edges[|edges| - 1];
    var idx := 0;
    while idx < |hist|
      invariant idx <= |hist| && tally == Prefix(hist, idx)
      invariant forall j | 0 <= j < idx :: Running(hist, j) <= limit
    {
      if tally + hist[idx] > limit {
        assert FirstOver(hist, limit, idx);
        if idx == 0 {
          result := if fromMax then h.max else h.min;
        } else {
          result := edges[idx];
        }
        assert result == EdgeAt(Edges(h, fromMax), Extreme(h, fromMax), Some(idx));
        return;
      }
      tally := tally + hist[idx];
      idx := idx + 1;
    }
  }

  /** The edge the scan of `bins` stops at. */
  function Cut(bins: seq<real>, edges: seq<real>, extreme: real, limit: real): real
    requires |edges| == |bins| + 1
  {
    EdgeAt(edges, extreme, Scan(bins, limit, 0, 0.0))
  }

  /** The threshold as a function of the record. */
  function ThresholdOf(h: Record, threshold: real, fromMax: bool): real
    requires WellFormed(h)
  {
    Cut(Bins(h, fromMax), Edges(h, fromMax), Extreme(h, fromMax), threshold * Samples(h))
  }

  /** The function stops where the loop does: at the first bin whose
      running total passes the threshold's share of the samples, or at the
      last edge when none does. */
  lemma ThresholdOfMeaning(h: Record, threshold: real, fromMax: bool)
    requires WellFormed(h)
    ensures var s, limit, r := Bins(h, fromMax), threshold * Samples(h), ThresholdOf(h, threshold, fromMax);
            || (exists i :: FirstOver(s, limit, i) && r == EdgeAt(Edges(h, fromMax), Extreme(h, fromMax), Some(i)))
            || (NeverOver(s, limit) && r == EdgeAt(Edges(h, fromMax), Extreme(h, fromMax), None))
  {
    var first := Scan(Bins(h, fromMax), threshold * Samples(h), 0, 0.0);
    if first.Some? {
      assert FirstOver(Bins(h, fromMax), threshold * Samples(h), first.value);
    }
  }

  /** The bins cut off below the returned edge hold no more than the
      threshold's share of the samples. */
  lemma {:induction false} ExcludedWithinThreshold(s: seq<real>, limit: real, i: nat)
    requires FirstOver(s, limit, i) && i > 0
    ensures Prefix(s, i) <= limit
  {
    assert Running(s, i - 1) <= limit;
  }

  /** There is only one first bin. */
  lemma FirstOverUnique(s: seq<real>, limit: real, i: nat, k: nat)
    requires FirstOver(s, limit, i) && FirstOver(s, limit, k)
    ensures i == k
  {
  }

  /** A larger threshold never stops the scan earlier: the cut moves
      monotonically with the threshold. */
  lemma FirstOverMonotone(s: seq<real>, low: real, high: real, i: nat, k: nat)
    requires low <= high
    requires FirstOver(s, low, i) && FirstOver(s, high, k)
    ensures i <= k
  {
  }

  /** Thresholds from the high end are thresholds from the low end of the
      mirrored histogram, with the maximum taking the minimum's place. */
  lemma FromMaxMirrors(h: Record, threshold: real)
    requires WellFormed(h)
    ensures var m := h.(hist := Reverse(h.hist), edges := Reverse(h.edges), min := h.max);
            WellFormed(m) && ThresholdOf(h, threshold, true) == ThresholdOf(m, threshold, false)
  {
    var m := h.(hist := Reverse(h.hist), edges := Reverse(h.edges), min := h.max);
    assert Bins(h, true) == Bins(m, false);
    assert Edges(h, true) == Edges(m, false);
    assert Extreme(h, true) == Extreme(m, false);
    assert Samples(h) == Samples(m);
  }
}
