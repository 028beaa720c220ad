/** Reconciling the channel counts of two pixel arrays before they are
    composited (large_image/tilesource/utilities.py:694-734).  Channels
    are read as L, LA, RGB, RGBA or any number of colour bands: a grey
    array facing a colour one is expanded to RGB by repeating L, and the
    array with fewer channels is padded with channels of ones. */
module ChannelDepth {
  import opened Wrappers

  /** A numpy array of two dimensions (`depth` absent; the value of row
      `r`, column `c` is `at(r, c, 0)`) or of three (`depth` channels). */
  datatype Array = Array(rows: nat, cols: nat, depth: Option<nat>, at: (nat, nat, nat) -> int)

  /** A three-dimensional array. */
  datatype Channels = Channels(rows: nat, cols: nat, depth: nat, at: (nat, nat, nat) -> int)

  /** The channel count an array is treated as having. */
  function DepthOf(a: Array): nat {
    a.depth.GetOr(1)
  }

  /** Arrays the source can reconcile: a three-dimensional array has at
      least one channel (with none, copying its first channel fails). */
  predicate Reconcilable(a: Array) {
    a.depth != Some(0)
  }

  /** `np.resize` of a two-dimensional array to one channel. */
  function ToThree(a: Array): (r: Channels)
    ensures r.rows == a.rows && r.cols == a.cols && r.depth == DepthOf(a)
    ensures forall i: nat, j: nat, k: nat | k < r.depth ::
              r.at(i, j, k) == if a.depth.Some? then a.at(i, j, k) else a.at(i, j, 0)
  {
    if a.depth.Some? then Channels(a.rows, a.cols, a.depth.value, a.at)
    else Channels(a.rows, a.cols, 1, (i: nat, j: nat, k: nat) => a.at(i, j, 0))
  }

  /** The channel count after the colour step: grey (one or two channels)
      facing colour (three or more) gains two channels. */
  function Expanded(depth: nat, other: nat): nat {
    if depth < 3 && other >= 3 then depth + 2 else depth
  }

  /** The colour step: L becomes LLL and LA becomes LLLA when the other
      array has colour; otherwise the array is kept. */
  function ToColour(a: Channels, other: nat): (r: Channels)
    requires a.depth >= 1
    ensures r.rows == a.rows && r.cols == a.cols && r.depth == Expanded(a.depth, other)
  {
    if a.depth < 3 && other >= 3 then
      Channels(a.rows, a.cols, a.depth + 2, (i: nat, j: nat, k: nat) =>
        if k < 3 then a.at(i, j, 0) else if a.depth == 2 && k == 3 then a.at(i, j, 1) else 1)
    else a
  }

  /** The alpha step: an array with fewer channels than `depth` is padded
      with channels of ones. */
  function PadTo(a: Channels, depth: nat): (r: Channels)
    ensures r.rows == a.rows && r.cols == a.cols
    ensures r.depth == if a.depth < depth then depth else a.depth
  {
    if a.depth < depth then
      Channels(a.rows, a.cols, depth, (i: nat, j: nat, k: nat) => if k < a.depth then a.at(i, j, k) else 1)
    else a
  }

  /** The value channel `k` of an output takes, for an array with `depth`
      channels facing one with `other`: the original channel, the repeated
      L, the moved alpha, or one. */
  function Reference(a: Array, other: nat, i: nat, j: nat, k: nat): int {
    var d := DepthOf(a);
    var v := (k': nat) => if a.depth.Some? then a.at(i, j, k') else a.at(i, j, 0);
    if d < 3 && other >= 3 then
      if k < 3 then v(0) else if d == 2 && k == 3 then v(1) else 1
    else if k < d then v(k) else 1
  }

  /** `_makeSameChannelDepth`. */
  function MakeSameDepth(a1: Array, a2: Array): (r: (Channels, Channels))
    requires Reconcilable(a1) && Reconcilable(a2)
    ensures r.0.rows == a1.rows && r.0.cols == a1.cols && r.1.rows == a2.rows && r.1.cols == a2.cols
    ensures var d1, d2 := DepthOf(a1), DepthOf(a2);
            var d := if Expanded(d1, d2) > Expanded(d2, d1) then Expanded(d1, d2) else Expanded(d2, d1);
            r.0.depth == d && r.1.depth == d
    ensures r.0.depth >= 3 <==> DepthOf(a1) >= 3 || DepthOf(a2) >= 3
    ensures forall i: nat, j: nat, k: nat | k < r.0.depth :: r.0.at(i, j, k) == Reference(a1, DepthOf(a2), i, j, k)
    ensures forall i: nat, j: nat, k: nat | k < r.1.depth :: r.1.at(i, j, k) == Reference(a2, DepthOf(a1), i, j, k)
  {
    var t1, t2 := ToThree(a1), ToThree(a2);
    var e1 := ToColour(t1, t2.depth);
    var e2 := ToColour(t2, e1.depth);
    assert e2.depth == Expanded(t2.depth, t1.depth);
    var p1 := PadTo(e1, e2.depth);
    var p2 := PadTo(e2, p1.depth);
    (p1, p2)
  }

  /** Two arrays holding the same values. */
  predicate Same(a: Channels, b: Channels) {
    && a.rows == b.rows && a.cols == b.cols && a.depth == b.depth
    && forall i: nat, j: nat, k: nat | i < a.rows && j < a.cols && k < a.depth :: a.at(i, j, k) == b.at(i, j, k)
  }

  /** A three-dimensional array as an input. */
  function AsArray(c: Channels): Array {
    Array(c.rows, c.cols, Some(c.depth), c.at)
  }

  /** The two arrays are treated alike: swapping them swaps the results. */
  lemma MakeSameDepthSymmetric(a1: Array, a2: Array)
    requires Reconcilable(a1) && Reconcilable(a2)
    ensures Same(MakeSameDepth(a2, a1).0, MakeSameDepth(a1, a2).1)
    ensures Same(MakeSameDepth(a2, a1).1, MakeSameDepth(a1, a2).0)
  {
  }

  /** Reconciled arrays need nothing more: reconciling them again leaves
      their values as they are. */
  lemma MakeSameDepthIdempotent(a1: Array, a2: Array)
    requires Reconcilable(a1) && Reconcilable(a2)
    ensures var r := MakeSameDepth(a1, a2);
            var s := MakeSameDepth(AsArray(r.0), AsArray(r.1));
            Same(s.0, r.0) && Same(s.1, r.1)
  {
    var r := MakeSameDepth(a1, a2);
    assert r.0.depth >= 1;
    var s := MakeSameDepth(AsArray(r.0), AsArray(r.1));
    forall i: nat, j: nat, k: nat | k < s.0.depth ensures s.0.at(i, j, k) == r.0.at(i, j, k) {
      assert s.0.at(i, j, k) == Reference(AsArray(r.0), r.1.depth, i, j, k);
    }
    forall i: nat, j: nat, k: nat | k < s.1.depth ensures s.1.at(i, j, k) == r.1.at(i, j, k) {
      assert s.1.at(i, j, k) == Reference(AsArray(r.1), r.0.depth, i, j, k);
    }
  }

  /** Three-dimensional arrays of one channel count are left as they are. */
  lemma EqualDepthsUnchanged(a1: Channels, a2: Channels)
    requires a1.depth == a2.depth >= 1
    ensures Same(MakeSameDepth(AsArray(a1), AsArray(a2)).0, a1)
    ensures Same(MakeSameDepth(AsArray(a1), AsArray(a2)).1, a2)
  {
  }
}
