/** The frame list of the nd2 source's metadata: one record per frame
    with the index of every iterated axis, a running `Index` of distinct
    positions, the channel name, and the per-axis `IndexRange` and
    `IndexStride` summaries
    (sources/nd2/large_image_source_nd2/__init__.py:260-312). */
module Nd2Frames {
  import opened Wrappers
  import opened Arith
  import opened Strings
  import opened MixedRadix

  /** An axis of the reader, by its one-letter name (`c`, `t`, `z`, `v`). */
  type Axis = char

  predicate IsAxisName(a: Axis) {
    'a' <= a <= 'z'
  }

  /** The iterated axes, fastest first (`iter_axes[::-1]`), and the size of
      every axis. */
  datatype Layout = Layout(axes: seq<Axis>, sizes: map<Axis, nat>)

  /** Distinct lower-case axes, each with a size of at least 1. */
  predicate ValidLayout(l: Layout) {
    && (forall k | 0 <= k < |l.axes| ::
          IsAxisName(l.axes[k]) && l.axes[k] in l.sizes && l.sizes[l.axes[k]] >= 1)
    && (forall j, k | 0 <= j < k < |l.axes| :: l.axes[j] != l.axes[k])
  }

  /** The axis sizes in iteration order. */
  function Radices(l: Layout): (r: seq<nat>)
    requires ValidLayout(l)
    ensures |r| == |l.axes| && Positive(r)
    ensures forall k | 0 <= k < |l.axes| :: r[k] == l.sizes[l.axes[k]]
  {
    seq(|l.axes|, k requires 0 <= k < |l.axes| => l.sizes[l.axes[k]])
  }

  /** The frame-record key of an axis: `v` (fields of view) is reported as
      `IndexXY`, any other axis as `Index` and its upper-case name. */
  function AxisKey(a: Axis): (key: string)
    ensures |key| >= 6 && key[..5] == "Index"
  {
    if a == 'v' then "IndexXY" else "Index" + [UpperChar(a)]
  }

  lemma AxisKeyInjective(a: Axis, b: Axis)
    requires IsAxisName(a) && IsAxisName(b) && AxisKey(a) == AxisKey(b)
    ensures a == b
  {
    if a != 'v' && b != 'v' {
      assert AxisKey(a)[5] == UpperChar(a) && AxisKey(b)[5] == UpperChar(b);
    }
  }

  /** The index fields of frame `idx` after the first `n` axes are
      written over the defaults `IndexZ = IndexXY = 0`. */
  function Indices(l: Layout, idx: nat, n: nat): map<string, nat>
    requires ValidLayout(l) && n <= |l.axes|
  {
    if n == 0 then map["IndexZ" := 0, "IndexXY" := 0]
    else Indices(l, idx, n - 1)[AxisKey(l.axes[n - 1]) := Digit(Radices(l), idx, n - 1)]
  }

  /** The index fields of frame `idx`. */
  function IndicesOf(l: Layout, idx: nat): map<string, nat>
    requires ValidLayout(l)
  {
    Indices(l, idx, |l.axes|)
  }

  /** The field of every axis holds the axis's index in the frame. */
  lemma {:induction false} IndicesAt(l: Layout, idx: nat, n: nat, k: nat)
    requires ValidLayout(l) && k < n <= |l.axes|
    ensures AxisKey(l.axes[k]) in Indices(l, idx, n)
    ensures Indices(l, idx, n)[AxisKey(l.axes[k])] == Digit(Radices(l), idx, k)
  {
    var last := AxisKey(l.axes[n - 1]);
    assert Indices(l, idx, n) == Indices(l, idx, n - 1)[last := Digit(Radices(l), idx, n - 1)];
    if k < n - 1 {
      IndicesAt(l, idx, n - 1, k);
      if last == AxisKey(l.axes[k]) {
        AxisKeyInjective(l.axes[n - 1], l.axes[k]);
      }
    }
  }

  /** The keys of the first `n` axes. */
  function AxisKeys(l: Layout, n: nat): set<string>
    requires n <= |l.axes|
  {
    set k | 0 <= k < n :: AxisKey(l.axes[k])
  }

  lemma AxisKeysStep(l: Layout, n: nat)
    requires 0 < n <= |l.axes|
    ensures AxisKeys(l, n) == AxisKeys(l, n - 1) + {AxisKey(l.axes[n - 1])}
  {
    forall key | key in AxisKeys(l, n) ensures key in AxisKeys(l, n - 1) + {AxisKey(l.axes[n - 1])} {
      var k :| 0 <= k < n && key == AxisKey(l.axes[k]);
      if k < n - 1 {
        assert key in AxisKeys(l, n - 1);
      }
    }
  }

  /** The fields are the two defaults and the keys of the axes. */
  lemma {:induction false} IndicesKeys(l: Layout, idx: nat, n: nat)
    requires ValidLayout(l) && n <= |l.axes|
    ensures Indices(l, idx, n).Keys == {"IndexZ", "IndexXY"} + AxisKeys(l, n)
  {
    if n > 0 {
      IndicesKeys(l, idx, n - 1);
      AxisKeysStep(l, n);
    } else {
      IndicesEmpty(l, idx);
    }
  }

  /** Before any axis is written only the two defaults are there. */
  lemma IndicesEmpty(l: Layout, idx: nat)
    requires ValidLayout(l)
    ensures Indices(l, idx, 0).Keys == {"IndexZ", "IndexXY"} + AxisKeys(l, 0)
  {
    assert AxisKeys(l, 0) == {};
  }

  /** Without a `z` axis `IndexZ` stays 0; without a `v` axis `IndexXY`
      stays 0. */
  lemma IndicesDefaults(l: Layout, idx: nat, n: nat)
    requires ValidLayout(l) && n <= |l.axes|
    ensures "IndexZ" in Indices(l, idx, n) && "IndexXY" in Indices(l, idx, n)
    ensures 'z' !in l.axes[..n] ==> Indices(l, idx, n)["IndexZ"] == 0
    ensures 'v' !in l.axes[..n] ==> Indices(l, idx, n)["IndexXY"] == 0
  {
    IndicesKeys(l, idx, n);
    DefaultKeys();
    if 'z' !in l.axes[..n] {
      assert forall k | 0 <= k < n :: l.axes[k] == l.axes[..n][k];
      DefaultKept(l, idx, n, 'z');
    }
    if 'v' !in l.axes[..n] {
      assert forall k | 0 <= k < n :: l.axes[k] == l.axes[..n][k];
      DefaultKept(l, idx, n, 'v');
    }
  }

  /** The keys of the two defaulted fields. */
  lemma DefaultKeys()
    ensures AxisKey('z') == "IndexZ" && AxisKey('v') == "IndexXY"
  {
    assert UpperChar('z') == 'Z';
  }

  /** A defaulted field no written axis maps to keeps its 0. */
  lemma {:induction false} DefaultKept(l: Layout, idx: nat, n: nat, b: Axis)
    requires ValidLayout(l) && n <= |l.axes| && (b == 'z' || b == 'v')
    requires forall k | 0 <= k < n :: l.axes[k] != b
    ensures AxisKey(b) in Indices(l, idx, n) && Indices(l, idx, n)[AxisKey(b)] == 0
  {
    if n == 0 {
      DefaultKeys();
    } else {
      DefaultKept(l, idx, n - 1, b);
      var a := l.axes[n - 1];
      if AxisKey(a) == AxisKey(b) {
        AxisKeyInjective(a, b);
      }
    }
  }

  // ---- the frame records ----

  /** One entry of `frames`: its number, its index fields, its channel
      name, and its running `Index`. */
  datatype Frame = Frame(number: nat, indices: map<string, nat>, channel: Option<string>, index: nat)

  /** `frame.get(key)`. */
  function Get(m: map<string, nat>, key: string): Option<nat> {
    if key in m then Some(m[key]) else None
  }

  /** The position moved between two frames: `IndexV`, `IndexXY` or
      `IndexZ` differs. */
  predicate Moved(prev: map<string, nat>, cur: map<string, nat>) {
    || Get(prev, "IndexV") != Get(cur, "IndexV")
    || Get(prev, "IndexXY") != Get(cur, "IndexXY")
    || Get(prev, "IndexZ") != Get(cur, "IndexZ")
  }

  /** The running `Index` of frame `idx`: how often the position moved
      from one frame to the next up to it. */
  function Position(l: Layout, idx: nat): (p: nat)
    requires ValidLayout(l)
    ensures p <= idx
  {
    if idx == 0 then 0
    else Position(l, idx - 1) + (if Moved(IndicesOf(l, idx - 1), IndicesOf(l, idx)) then 1 else 0)
  }

  /** Two frames share the running `Index` exactly when the position does
      not move anywhere between them. */
  lemma {:induction false} PositionSteady(l: Layout, j: nat, i: nat)
    requires ValidLayout(l) && j <= i
    ensures Position(l, j) <= Position(l, i)
    ensures Position(l, i) == Position(l, j) <==>
      forall m | j < m <= i :: !Moved(IndicesOf(l, m - 1), IndicesOf(l, m))
  {
    if j < i {
      PositionSteady(l, j, i - 1);
    }
  }

  /** The position of axis `a` among the axes. */
  function AxisPosition(l: Layout, a: Axis): (k: nat)
    requires a in l.axes
    ensures k < |l.axes| && l.axes[k] == a
  {
    IndexOf(l.axes, a)
  }

  /** The channel name of frame `idx`: the `c` axis index into the
      channel list, when both exist and the index is in range. */
  function ChannelOf(l: Layout, channels: Option<seq<string>>, idx: nat): (r: Option<string>)
    requires ValidLayout(l)
    ensures r.Some? <==>
      && channels.Some? && 'c' in l.axes
      && Digit(Radices(l), idx, AxisPosition(l, 'c')) < |channels.value|
    ensures r.Some? ==> r.value in channels.value
  {
    if channels.Some? && 'c' in l.axes then
      var d := Digit(Radices(l), idx, AxisPosition(l, 'c'));
      if d < |channels.value| then Some(channels.value[d]) else None
    else None
  }

  /** The channel name is the one the frame's `IndexC` field names. */
  lemma ChannelOfIndexC(l: Layout, channels: Option<seq<string>>, idx: nat)
    requires ValidLayout(l) && ChannelOf(l, channels, idx).Some?
    ensures "IndexC" in IndicesOf(l, idx)
    ensures IndicesOf(l, idx)["IndexC"] < |channels.value|
    ensures ChannelOf(l, channels, idx).value == channels.value[IndicesOf(l, idx)["IndexC"]]
  {
    var k := AxisPosition(l, 'c');
    assert AxisKey('c') == "IndexC" by {
      assert UpperChar('c') == 'C';
    }
    IndicesAt(l, idx, |l.axes|, k);
  }

  /** The record of frame `idx`. */
  function FrameAt(l: Layout, channels: Option<seq<string>>, idx: nat): Frame
    requires ValidLayout(l)
  {
    Frame(idx, IndicesOf(l, idx), ChannelOf(l, channels, idx), Position(l, idx))
  }

  /** How many frames the loop produces: it stops once the known frame
      count is reached, and otherwise runs through the reader. */
  function FrameTotal(readerLength: nat, framecount: Option<nat>): (n: nat)
    ensures n <= readerLength
  {
    if framecount.Some? && framecount.value > 0 then Min(readerLength, framecount.value)
    else readerLength
  }

  /** The frame list. */
  function Frames(l: Layout, channels: Option<seq<string>>, n: nat): (fs: seq<Frame>)
    requires ValidLayout(l)
    ensures |fs| == n
    ensures forall i | 0 <= i < n :: fs[i] == FrameAt(l, channels, i)
  {
    seq(n, i requires 0 <= i < n => FrameAt(l, channels, i))
  }

  /** The source's loop: each frame is built from its number, its
      `Index` advanced from the previous frame's when the position moved,
      and the loop breaks once the known frame count is reached. */
  method BuildFrames(l: Layout, channels: Option<seq<string>>, readerLength: nat, framecount: Option<nat>)
    returns (frames: seq<Frame>)
    requires ValidLayout(l)
    ensures frames == Frames(l, channels, FrameTotal(readerLength, framecount))
  {
    frames := [];
    var index := 0;
    var idx := 0;
    while idx < readerLength
      invariant idx <= readerLength && |frames| == idx
      invariant framecount.Some? && framecount.value > 0 ==> idx < framecount.value
      invariant forall i | 0 <= i < idx :: frames[i] == FrameAt(l, channels, i)
      invariant index == if idx == 0 then 0 else Position(l, idx - 1)
    {
      var frame := IndicesOf(l, idx);
      assert idx > 0 ==> frames[idx - 1].indices == IndicesOf(l, idx - 1);
      if idx > 0 && Moved(frames[idx - 1].indices, frame) {
        index := index + 1;
      }
      assert index == Position(l, idx);
      frames := AppendFrame(l, channels, frames, Frame(idx, frame, ChannelOf(l, channels, idx), index));
      if framecount.Some? && framecount.value > 0 && |frames| == framecount.value {
        break;
      }
      idx := idx + 1;
    }
    FramesFrom(l, channels, frames, FrameTotal(readerLength, framecount));
  }

  /** One more frame keeps the prefix of the frame list. */
  function AppendFrame(l: Layout, channels: Option<seq<string>>, frames: seq<Frame>, f: Frame): (r: seq<Frame>)
    requires ValidLayout(l)
    requires forall i | 0 <= i < |frames| :: frames[i] == FrameAt(l, channels, i)
    requires f == FrameAt(l, channels, |frames|)
    ensures |r| == |frames| + 1
    ensures forall i | 0 <= i < |r| :: r[i] == FrameAt(l, channels, i)
  {
    frames + [f]
  }

  /** A list that agrees with every frame record is the frame list. */
  lemma FramesFrom(l: Layout, channels: Option<seq<string>>, frames: seq<Frame>, n: nat)
    requires ValidLayout(l) && |frames| == n
    requires forall i | 0 <= i < n :: frames[i] == FrameAt(l, channels, i)
    ensures frames == Frames(l, channels, n)
  {
  }

  // ---- the per-axis summaries ----

  /** `maxref[axis]` after `n` frames: one more than the largest index the
      axis at position `k` takes among them (0 before any frame). */
  function MaxIndex(l: Layout, n: nat, k: nat): (r: nat)
    requires ValidLayout(l) && k < |l.axes|
    ensures r <= Radices(l)[k]
    ensures forall idx: nat | idx < n :: Digit(Radices(l), idx, k) < r
  {
    if n == 0 then 0
    else Max(MaxIndex(l, n - 1, k), Digit(Radices(l), n - 1, k) + 1)
  }

  /** The range is attained by some frame. */
  lemma {:induction false} MaxIndexAttained(l: Layout, n: nat, k: nat) returns (idx: nat)
    requires ValidLayout(l) && k < |l.axes| && n > 0
    ensures idx < n && Digit(Radices(l), idx, k) + 1 == MaxIndex(l, n, k)
  {
    if n == 1 || MaxIndex(l, n - 1, k) <= Digit(Radices(l), n - 1, k) + 1 {
      idx := n - 1;
    } else {
      idx := MaxIndexAttained(l, n - 1, k);
    }
  }

  /** An axis takes an index above 0 exactly when it has more than one
      index and the frames reach past its stride; once the frames cover a
      full turn of the axis, its range is its size. */
  lemma MaxIndexValue(l: Layout, n: nat, k: nat)
    requires ValidLayout(l) && k < |l.axes|
    ensures MaxIndex(l, n, k) > 1 <==> Radices(l)[k] > 1 && Basis(Radices(l), k) < n
    ensures n > 0 && n >= Basis(Radices(l), k) * Radices(l)[k] ==> MaxIndex(l, n, k) == Radices(l)[k]
  {
    var sizes := Radices(l);
    var b, s, m := Basis(sizes, k), sizes[k], MaxIndex(l, n, k);
    if m > 1 {
      MaxIndexReached(l, n, k);
    }
    if s > 1 && b < n {
      FirstStep(sizes, b, k);
      assert Digit(sizes, b, k) < m;
    }
    if n > 0 && n >= b * s {
      MaxIndexFull(l, n, k);
    }
  }

  lemma MaxIndexReached(l: Layout, n: nat, k: nat)
    requires ValidLayout(l) && k < |l.axes| && MaxIndex(l, n, k) > 1
    ensures Radices(l)[k] > 1 && Basis(Radices(l), k) < n
  {
    var sizes := Radices(l);
    var idx := MaxIndexAttained(l, n, k);
    FirstStep(sizes, idx, k);
  }

  lemma MaxIndexFull(l: Layout, n: nat, k: nat)
    requires ValidLayout(l) && k < |l.axes|
    requires n > 0 && n >= Basis(Radices(l), k) * Radices(l)[k]
    ensures MaxIndex(l, n, k) == Radices(l)[k]
  {
    var sizes := Radices(l);
    var b, s := Basis(sizes, k), sizes[k];
    var top := (s - 1) * b;
    LastStep(sizes, k);
    BelowTurn(b, s, n);
    assert Digit(sizes, top, k) < MaxIndex(l, n, k);
  }

  lemma BelowTurn(b: nat, s: nat, n: nat)
    requires b >= 1 && s >= 1 && n >= b * s
    ensures (s - 1) * b < n
  {
    MulStrict(s - 1, s, b);
  }

  lemma AxisNamed(l: Layout, a: Axis)
    requires ValidLayout(l) && a in l.axes
    ensures IsAxisName(a)
  {
    var k := AxisPosition(l, a);
  }

  /** The axes whose range exceeds 1. */
  function Ranged(l: Layout, n: nat): set<Axis>
    requires ValidLayout(l)
  {
    set a | a in l.axes && MaxIndex(l, n, AxisPosition(l, a)) > 1
  }

  /** The axis a key of the frame records names: the inverse of
      `AxisKey` on axis names. */
  function KeyAxis(key: string): Axis
    requires |key| >= 6
  {
    if key == "IndexXY" then 'v' else LowerChar(key[5])
  }

  lemma KeyAxisOfAxisKey(a: Axis)
    requires IsAxisName(a)
    ensures KeyAxis(AxisKey(a)) == a
  {
    if a != 'v' {
      assert AxisKey(a)[5] == UpperChar(a);
    }
  }

  /** `IndexRange`: the key of every axis whose range exceeds 1, with that
      range; absent when no axis has one. */
  function IndexRange(l: Layout, n: nat): (r: Option<map<string, nat>>)
    requires ValidLayout(l)
    ensures r.None? <==> Ranged(l, n) == {}
    ensures r.Some? ==> r.value.Keys == set a | a in Ranged(l, n) :: AxisKey(a)
  {
    if Ranged(l, n) == {} then
      None
    else
      RangedKeysNamed(l, n);
      Some(RangeMap(l, n, set a | a in Ranged(l, n) :: AxisKey(a)))
  }

  /** The key of a ranged axis names that axis. */
  lemma RangedKeysNamed(l: Layout, n: nat)
    requires ValidLayout(l)
    ensures forall key | key in (set a | a in Ranged(l, n) :: AxisKey(a)) :: |key| >= 6 && KeyAxis(key) in l.axes
  {
    var ranged := Ranged(l, n);
    forall key | key in (set a | a in ranged :: AxisKey(a)) ensures |key| >= 6 && KeyAxis(key) in l.axes {
      var a :| a in ranged && key == AxisKey(a);
      AxisNamed(l, a);
      KeyAxisOfAxisKey(a);
    }
  }

  /** The range of the axis each key names. */
  function RangeMap(l: Layout, n: nat, keys: set<string>): (m: map<string, nat>)
    requires ValidLayout(l)
    requires forall key | key in keys :: |key| >= 6 && KeyAxis(key) in l.axes
    ensures m.Keys == keys
  {
    map key | key in keys :: MaxIndex(l, n, AxisPosition(l, KeyAxis(key)))
  }

  /** An axis is listed in `IndexRange` exactly when it has more than one
      index and the frames reach past its stride, with its range as the
      value; nothing else is listed. */
  lemma IndexRangeOf(l: Layout, n: nat, a: Axis)
    requires ValidLayout(l) && a in l.axes
    ensures var r, k := IndexRange(l, n), AxisPosition(l, a);
      (r.Some? && AxisKey(a) in r.value) <==> Radices(l)[k] > 1 && Basis(Radices(l), k) < n
    ensures var r, k := IndexRange(l, n), AxisPosition(l, a);
      r.Some? && AxisKey(a) in r.value ==> r.value[AxisKey(a)] == MaxIndex(l, n, k)
  {
    var k := AxisPosition(l, a);
    MaxIndexValue(l, n, k);
    RangedKey(l, n, a);
    assert a in Ranged(l, n) <==> MaxIndex(l, n, k) > 1;
  }

  /** The key of an axis is listed exactly when the axis is ranged. */
  lemma RangedKey(l: Layout, n: nat, a: Axis)
    requires ValidLayout(l) && a in l.axes
    ensures var r := IndexRange(l, n);
      (r.Some? && AxisKey(a) in r.value) <==> a in Ranged(l, n)
    ensures var r := IndexRange(l, n);
      r.Some? && AxisKey(a) in r.value ==> r.value[AxisKey(a)] == MaxIndex(l, n, AxisPosition(l, a))
  {
    var r := IndexRange(l, n);
    AxisNamed(l, a);
    KeyAxisOfAxisKey(a);
    if r.Some? && AxisKey(a) in r.value {
      var b :| b in Ranged(l, n) && AxisKey(a) == AxisKey(b);
      AxisNamed(l, b);
      AxisKeyInjective(a, b);
    }
  }

  /** `IndexRange` is absent exactly when no axis has more than one index
      within the frames. */
  lemma IndexRangeAbsent(l: Layout, n: nat)
    requires ValidLayout(l)
    ensures IndexRange(l, n).None? <==>
      forall k | 0 <= k < |l.axes| :: Radices(l)[k] <= 1 || Basis(Radices(l), k) >= n
  {
    if IndexRange(l, n).Some? {
      var a :| a in Ranged(l, n);
      MaxIndexValue(l, n, AxisPosition(l, a));
    } else {
      forall k | 0 <= k < |l.axes| ensures Radices(l)[k] <= 1 || Basis(Radices(l), k) >= n {
        var a := l.axes[k];
        assert AxisPosition(l, a) == k;
        assert a !in Ranged(l, n);
        MaxIndexValue(l, n, k);
      }
    }
  }

  /** The first frame whose field `key` is 1, searching from frame `i`. */
  function FirstOne(frames: seq<Frame>, key: string, i: nat): (r: Option<nat>)
    requires i <= |frames|
    ensures r.Some? ==> i <= r.value < |frames| && Get(frames[r.value].indices, key) == Some(1)
    ensures forall j | i <= j < |frames| && (r.None? || j < r.value) ::
      Get(frames[j].indices, key) != Some(1)
    decreases |frames| - i
  {
    if i == |frames| then None
    else if Get(frames[i].indices, key) == Some(1) then Some(i)
    else FirstOne(frames, key, i + 1)
  }

  /** Why `IndexStride` cannot be built. */
  datatype StrideError = NoIndexRange | NoFrameAtOne

  /** `{key: [idx for idx, frame in enumerate(frames) if frame[key] == 1][0]
      for key in ranges}`: the first frame at index 1 of every key. */
  function StrideOver(frames: seq<Frame>, ranges: map<string, nat>): (r: Result<map<string, nat>, StrideError>)
    ensures r.Ok? <==> forall key | key in ranges :: FirstOne(frames, key, 0).Some?
    ensures r.Ok? ==> r.value.Keys == ranges.Keys
    ensures r.Ok? ==> forall key | key in r.value ::
      r.value[key] < |frames| && Get(frames[r.value[key]].indices, key) == Some(1)
  {
    if forall key | key in ranges :: FirstOne(frames, key, 0).Some? then
      Ok(map key | key in ranges :: FirstOne(frames, key, 0).value)
    else Err(NoFrameAtOne)
  }

  /** `IndexStride` as written: `result['IndexRange']` is read even when
      no `IndexRange` was stored, which raises. */
  function IndexStrideAsWritten(frames: seq<Frame>, range: Option<map<string, nat>>): (r: Result<map<string, nat>, StrideError>)
    ensures range.None? <==> r == Err(NoIndexRange)
    ensures range.Some? ==> r == StrideOver(frames, range.value)
  {
    if range.None? then Err(NoIndexRange) else StrideOver(frames, range.value)
  }

  /** `IndexStride` with a missing `IndexRange` read as empty: no axis
      ranges, so no strides. */
  function IndexStride(frames: seq<Frame>, range: Option<map<string, nat>>): (r: Result<map<string, nat>, StrideError>)
    ensures range.None? ==> r == Ok(map[])
    ensures range.Some? ==> r == IndexStrideAsWritten(frames, range)
  {
    if range.None? then Ok(map[]) else StrideOver(frames, range.value)
  }

  /** A search from `i` finds `p` when `p` is the first frame at 1 from
      there on. */
  lemma {:induction false} FirstOneAt(frames: seq<Frame>, key: string, i: nat, p: nat)
    requires i <= p < |frames| && Get(frames[p].indices, key) == Some(1)
    requires forall j | i <= j < p :: Get(frames[j].indices, key) != Some(1)
    ensures FirstOne(frames, key, i) == Some(p)
    decreases p - i
  {
    if i < p {
      FirstOneAt(frames, key, i + 1, p);
    }
  }

  /** The first frame at index 1 of a ranged axis is its stride: the
      product of the sizes of the faster axes. */
  lemma StrideIsBasis(l: Layout, channels: Option<seq<string>>, n: nat, a: Axis)
    requires ValidLayout(l) && a in Ranged(l, n)
    ensures FirstOne(Frames(l, channels, n), AxisKey(a), 0) ==
      Some(Basis(Radices(l), AxisPosition(l, a)))
  {
    var frames, k := Frames(l, channels, n), AxisPosition(l, a);
    var sizes := Radices(l);
    var b := Basis(sizes, k);
    MaxIndexValue(l, n, k);
    forall j | 0 <= j < n ensures Get(frames[j].indices, AxisKey(a)) == Some(Digit(sizes, j, k)) {
      IndicesAt(l, j, |l.axes|, k);
    }
    forall j | 0 <= j < b ensures Get(frames[j].indices, AxisKey(a)) != Some(1) {
      FirstStep(sizes, j, k);
    }
    FirstStep(sizes, b, k);
    FirstOneAt(frames, AxisKey(a), 0, b);
  }

  /** With the frames of a layout, `IndexStride` is always built, and
      names the stride of every ranged axis. */
  lemma IndexStrideOfLayout(l: Layout, channels: Option<seq<string>>, n: nat)
    requires ValidLayout(l)
    ensures var r := IndexStride(Frames(l, channels, n), IndexRange(l, n));
      && r.Ok?
      && r.value.Keys == (if IndexRange(l, n).Some? then IndexRange(l, n).value.Keys else {})
      && forall a | a in Ranged(l, n) ::
           AxisKey(a) in r.value && r.value[AxisKey(a)] == Basis(Radices(l), AxisPosition(l, a))
  {
    var frames, range := Frames(l, channels, n), IndexRange(l, n);
    if range.Some? {
      forall key | key in range.value ensures FirstOne(frames, key, 0).Some? {
        var a :| a in Ranged(l, n) && key == AxisKey(a);
        StrideIsBasis(l, channels, n, a);
      }
      forall a | a in Ranged(l, n) ensures FirstOne(frames, AxisKey(a), 0) ==
        Some(Basis(Radices(l), AxisPosition(l, a)))
      {
        StrideIsBasis(l, channels, n, a);
      }
    }
  }

  /** A file with one channel and one frame has no ranged axis, so the
      source fails reading `IndexRange`, while an empty `IndexStride` is
      what the other cases lead to expect. */
  lemma SingleFrameWitness(channels: Option<seq<string>>)
    ensures var l := Layout(['c'], map['c' := 1]);
      && ValidLayout(l)
      && IndexRange(l, 1).None?
      && IndexStrideAsWritten(Frames(l, channels, 1), IndexRange(l, 1)) == Err(NoIndexRange)
      && IndexStride(Frames(l, channels, 1), IndexRange(l, 1)) == Ok(map[])
  {
    var l := Layout(['c'], map['c' := 1]);
    IndexRangeAbsent(l, 1);
  }

  // ---- the channel list ----

  predicate Distinct<T(==)>(s: seq<T>) {
    forall i, j | 0 <= i < j < |s| :: s[i] != s[j]
  }

  /** The position of `x` in `s`. */
  function PositionIn<T(==)>(s: seq<T>, x: T): (p: nat)
    requires x in s
    ensures p < |s| && s[p] == x
  {
    if s[0] == x then 0 else 1 + PositionIn(s[1..], x)
  }

  /** `result['channels']` and `result['channelmap']`. */
  datatype ChannelList = ChannelList(names: seq<string>, channelmap: map<string, nat>)

  /** `maxref.get('c', 1)`. */
  function ChannelRange(l: Layout, n: nat): nat
    requires ValidLayout(l)
  {
    if 'c' in l.axes && n > 0 then MaxIndex(l, n, AxisPosition(l, 'c')) else 1
  }

  /** The channel names, when the metadata lists distinct names for at
      least every channel index reached, cut to those indices, with each
      name mapped to its index. */
  function Channels(channels: Option<seq<string>>, count: nat): (r: Option<ChannelList>)
    ensures r.Some? <==> channels.Some? && |channels.value| >= count && Distinct(channels.value)
    ensures r.Some? ==> r.value.names == channels.value[..count]
  {
    if channels.Some? && |channels.value| >= count && Distinct(channels.value) then
      var names := channels.value[..count];
      Some(ChannelList(names, map name | name in names :: PositionIn(names, name)))
    else None
  }

  /** The channel map inverts the channel list. */
  lemma ChannelMapInverse(channels: Option<seq<string>>, count: nat)
    requires Channels(channels, count).Some?
    ensures var c := Channels(channels, count).value;
      && c.channelmap.Keys == (set i | 0 <= i < |c.names| :: c.names[i])
      && forall i | 0 <= i < |c.names| :: c.channelmap[c.names[i]] == i
  {
    var c := Channels(channels, count).value;
    forall i | 0 <= i < |c.names| ensures c.channelmap[c.names[i]] == i {
      var p := PositionIn(c.names, c.names[i]);
      assert c.names[p] == c.names[i];
      assert channels.value[p] == channels.value[i];
    }
  }
}
