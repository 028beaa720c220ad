/** The frame list, texture requests and quad layout computed by
    `getTileFramesQuadInfo` (large_image/tilesource/utilities.py:899-961)
    once the texture geometry is known.  The geometry itself (frame width
    and height, frames across, frames per texture, texture count, and the
    used width and height of a frame) is an input. */
module FrameQuads {
  import opened Wrappers

  /** `range(start, stop, step)` for a positive step. */
  function RangeSeq(start: nat, stop: nat, step: nat): (r: seq<nat>)
    requires step >= 1
    ensures forall i | 0 <= i < |r| :: r[i] == start + i * step && r[i] < stop
    ensures start + |r| * step >= stop
    decreases stop - start
  {
    if start >= stop then [] else [start] + RangeSeq(start + step, stop, step)
  }

  /** Strictly increasing sequences hold no value twice. */
  predicate Increasing(s: seq<nat>) {
    forall i, j | 0 <= i < j < |s| :: s[i] < s[j]
  }

  predicate Distinct(s: seq<nat>) {
    forall i, j | 0 <= i < j < |s| :: s[i] != s[j]
  }

  /** `f` is `base` plus a whole number of strides. */
  predicate OnStride(f: nat, base: nat, stride: nat)
    requires stride >= 1
  {
    f >= base && (f - base) % stride == 0
  }

  /** Why the quad information cannot be built: `range` with a zero step,
      or no frames at all, for which the texture layout divides by zero
      frames per texture. */
  datatype FrameError = ZeroStep | NoFrames

  /** The frames of groups `g` to `groupStride - 1`. */
  function Groups(numFrames: nat, base: nat, stride: nat, groupStride: nat, g: nat): seq<nat>
    requires stride >= 1 && groupStride >= 1
    decreases groupStride - g
  {
    if g >= groupStride then []
    else RangeSeq(base + g * stride, numFrames, stride * groupStride) + Groups(numFrames, base, stride, groupStride, g + 1)
  }

  /** The frames used: every `stride`-th frame from `base`, reordered so
      that the frames of each group of `groupStride` consecutive picks are
      spread out.  With no groups the list is empty, and a zero stride with
      groups fails in `range`. */
  function FrameList(numFrames: nat, base: nat, stride: nat, groupStride: nat): (r: Result<seq<nat>, FrameError>)
    ensures r.Err? <==> stride == 0 && groupStride >= 1
    ensures r.Err? ==> r.error == ZeroStep
    ensures r.Ok? && groupStride >= 1 ==>
              forall f: nat :: f in r.value <==> f < numFrames && OnStride(f, base, stride)
    ensures r.Ok? ==> Distinct(r.value)
    ensures groupStride == 0 ==> r == Ok([])
  {
    if groupStride == 0 then Ok([])
    else if stride == 0 then Err(ZeroStep)
    else
      var frames := Groups(numFrames, base, stride, groupStride, 0);
      GroupsDistinct(numFrames, base, stride, groupStride, 0);
      forall f: nat ensures f in frames <==> f < numFrames && OnStride(f, base, stride) {
        GroupsMembers(numFrames, base, stride, groupStride, 0, f);
      }
      Ok(frames)
  }

  /** `f` belongs to group `g`: it is the `k`-th pick from `base` with
      `k` leaving remainder `g` by `groupStride`. */
  predicate InGroup(f: nat, base: nat, stride: nat, groupStride: nat, g: nat)
    requires stride >= 1 && groupStride >= 1
  {
    OnStride(f, base, stride) && ((f - base) / stride) % groupStride == g
  }

  /** Euclidean division has one quotient and remainder. */
  lemma DivModUnique(x: int, m: int, q: int, r: int)
    requires m >= 1 && 0 <= r < m && x == q * m + r
    ensures x / m == q && x % m == r
  {
    var q', r' := x / m, x % m;
    assert (q - q') * m == r' - r;
    if q > q' {
      MulMonotone(1, q - q', m);
    } else if q < q' {
      MulMonotone(1, q' - q, m);
    }
  }

  lemma MulMonotone(a: nat, b: nat, m: nat)
    requires a <= b
    ensures a * m <= b * m
  {
  }

  lemma MulStrict(a: nat, b: nat, m: nat)
    requires a < b && m >= 1
    ensures a * m < b * m
  {
  }

  lemma Distribute(g: int, i: int, groupStride: int, stride: int)
    ensures (g + i * groupStride) * stride == g * stride + i * (stride * groupStride)
  {
  }

  /** Every frame of the range of group `g` belongs to that group. */
  lemma GroupRangeSound(numFrames: nat, base: nat, stride: nat, groupStride: nat, g: nat, i: nat)
    requires stride >= 1 && groupStride >= 1 && g < groupStride
    requires i < |RangeSeq(base + g * stride, numFrames, stride * groupStride)|
    ensures var f := RangeSeq(base + g * stride, numFrames, stride * groupStride)[i];
            f < numFrames && InGroup(f, base, stride, groupStride, g)
  {
    var f := RangeSeq(base + g * stride, numFrames, stride * groupStride)[i];
    var k := g + i * groupStride;
    Distribute(g, i, groupStride, stride);
    assert f - base == k * stride;
    DivModUnique(f - base, stride, k, 0);
    DivModUnique(k, groupStride, i, g);
  }

  /** Every frame of group `g` is in the range of that group. */
  lemma GroupRangeComplete(numFrames: nat, base: nat, stride: nat, groupStride: nat, g: nat, f: nat)
    requires stride >= 1 && groupStride >= 1 && g < groupStride
    requires f < numFrames && InGroup(f, base, stride, groupStride, g)
    ensures f in RangeSeq(base + g * stride, numFrames, stride * groupStride)
  {
    var i := GroupPosition(f, base, stride, groupStride, g);
    RangeHas(base + g * stride, numFrames, stride * groupStride, i);
  }

  /** A frame of group `g` is a whole number of group steps after the
      group's first frame. */
  lemma GroupPosition(f: nat, base: nat, stride: nat, groupStride: nat, g: nat) returns (i: nat)
    requires stride >= 1 && groupStride >= 1 && g < groupStride
    requires InGroup(f, base, stride, groupStride, g)
    ensures f == base + g * stride + i * (stride * groupStride)
  {
    var k := (f - base) / stride;
    i := k / groupStride;
    DivModUnique(f - base, stride, k, 0);
    assert f - base == k * stride;
    assert k == i * groupStride + g;
    Distribute(g, i, groupStride, stride);
  }

  /** `range(start, stop, step)` holds `start + i * step` at position `i`
      when that is below `stop`. */
  lemma RangeHas(start: nat, stop: nat, step: nat, i: nat)
    requires step >= 1 && start + i * step < stop
    ensures var r := RangeSeq(start, stop, step);
            i < |r| && r[i] == start + i * step
  {
    var r := RangeSeq(start, stop, step);
    if i >= |r| {
      MulMonotone(|r|, i, step);
    }
  }

  /** The range of group `g` holds exactly the frames of that group. */
  lemma GroupRange(numFrames: nat, base: nat, stride: nat, groupStride: nat, g: nat, f: nat)
    requires stride >= 1 && groupStride >= 1 && g < groupStride
    ensures f in RangeSeq(base + g * stride, numFrames, stride * groupStride) <==>
              f < numFrames && InGroup(f, base, stride, groupStride, g)
  {
    var r := RangeSeq(base + g * stride, numFrames, stride * groupStride);
    if f in r {
      var i :| 0 <= i < |r| && r[i] == f;
      GroupRangeSound(numFrames, base, stride, groupStride, g, i);
    }
    if f < numFrames && InGroup(f, base, stride, groupStride, g) {
      GroupRangeComplete(numFrames, base, stride, groupStride, g, f);
    }
  }

  lemma RangeIncreasing(start: nat, stop: nat, step: nat)
    requires step >= 1
    ensures Increasing(RangeSeq(start, stop, step))
  {
    var r := RangeSeq(start, stop, step);
    forall i, j | 0 <= i < j < |r| ensures r[i] < r[j] {
      MulStrict(i, j, step);
    }
  }

  lemma {:induction false} GroupsMembers(numFrames: nat, base: nat, stride: nat, groupStride: nat, g: nat, f: nat)
    requires stride >= 1 && groupStride >= 1
    ensures f in Groups(numFrames, base, stride, groupStride, g) <==>
              f < numFrames && OnStride(f, base, stride) && g <= ((f - base) / stride) % groupStride
    decreases groupStride - g
  {
    if g < groupStride {
      GroupsMembers(numFrames, base, stride, groupStride, g + 1, f);
      GroupRange(numFrames, base, stride, groupStride, g, f);
      var head := RangeSeq(base + g * stride, numFrames, stride * groupStride);
      var tail := Groups(numFrames, base, stride, groupStride, g + 1);
      assert Groups(numFrames, base, stride, groupStride, g) == head + tail;
      assert f in head + tail <==> f in head || f in tail;
      GroupStep(f, base, stride, groupStride, g);
    } else {
      ModBelow((f - base) / stride, groupStride);
    }
  }

  lemma ModBelow(x: int, m: int)
    requires m >= 1
    ensures x % m < m
  {
  }

  /** From group `g` on means group `g` or from group `g + 1` on. */
  lemma GroupStep(f: nat, base: nat, stride: nat, groupStride: nat, g: nat)
    requires stride >= 1 && groupStride >= 1
    ensures OnStride(f, base, stride) && g <= ((f - base) / stride) % groupStride <==>
              InGroup(f, base, stride, groupStride, g)
              || (OnStride(f, base, stride) && g + 1 <= ((f - base) / stride) % groupStride)
  {
  }

  lemma {:induction false} GroupsDistinct(numFrames: nat, base: nat, stride: nat, groupStride: nat, g: nat)
    requires stride >= 1 && groupStride >= 1
    ensures Distinct(Groups(numFrames, base, stride, groupStride, g))
    decreases groupStride - g
  {
    if g < groupStride {
      var head := RangeSeq(base + g * stride, numFrames, stride * groupStride);
      var tail := Groups(numFrames, base, stride, groupStride, g + 1);
      GroupsDistinct(numFrames, base, stride, groupStride, g + 1);
      RangeIncreasing(base + g * stride, numFrames, stride * groupStride);
      forall f | f in head ensures f !in tail {
        GroupRange(numFrames, base, stride, groupStride, g, f);
        GroupsMembers(numFrames, base, stride, groupStride, g + 1, f);
      }
      DistinctConcat(head, tail);
    }
  }

  /** Two lists without repeats and without common elements join into a
      list without repeats. */
  lemma DistinctConcat(a: seq<nat>, b: seq<nat>)
    requires Increasing(a) && Distinct(b)
    requires forall f | f in a :: f !in b
    ensures Distinct(a + b)
  {
    var s := a + b;
    forall i, j | 0 <= i < j < |s| ensures s[i] != s[j] {
      if j < |a| {
        assert s[i] == a[i] && s[j] == a[j];
      } else if i >= |a| {
        assert s[i] == b[i - |a|] && s[j] == b[j - |a|];
      } else {
        assert s[i] == a[i] && s[j] == b[j - |a|];
        assert a[i] in a;
      }
    }
  }

  /** `{frame: idx for idx, frame in enumerate(frames)}`: where a frame
      appears twice the later position wins. */
  function IndexOf(frames: seq<nat>): (r: map<nat, nat>)
    ensures forall f :: f in r <==> f in frames
    ensures forall f | f in r :: r[f] < |frames| && frames[r[f]] == f
  {
    if frames == [] then map[]
    else IndexOf(frames[..|frames| - 1])[frames[|frames| - 1] := |frames| - 1]
  }

  /** On a list without repeats, the index map inverts the list. */
  lemma IndexOfInverse(frames: seq<nat>)
    requires Distinct(frames)
    ensures forall i | 0 <= i < |frames| :: IndexOf(frames)[frames[i]] == i
  {
    var r := IndexOf(frames);
    forall i | 0 <= i < |frames| ensures r[frames[i]] == i {
      assert frames[i] in r;
      var k := r[frames[i]];
      assert frames[k] == frames[i];
    }
  }

  /** Python's slice `s[lo:hi]`, clamped to the sequence. */
  function Slice<T>(s: seq<T>, lo: nat, hi: nat): (r: seq<T>)
    ensures lo <= hi ==> |r| <= hi - lo
    ensures lo <= hi && lo <= |s| ==> r == s[lo..if hi <= |s| then hi else |s|]
    ensures lo >= |s| || hi <= lo ==> r == []
  {
    var b := if hi <= |s| then hi else |s|;
    var a := if lo <= b then lo else b;
    s[a..b]
  }

  /** `s` joined end to end. */
  function Concat<T>(ss: seq<seq<T>>): seq<T> {
    if ss == [] then [] else Concat(ss[..|ss| - 1]) + ss[|ss| - 1]
  }

  /** Where the `p`-th element of `ss[t]` lands once `ss` is joined. */
  function Pos<T>(ss: seq<seq<T>>, t: nat, p: nat): nat
    requires t < |ss|
  {
    |Concat(ss[..t])| + p
  }

  /** The `p`-th element of the `t`-th sequence sits at `Pos(ss, t, p)`
      of the joined sequence. */
  lemma {:induction false} ConcatPlaces<T>(ss: seq<seq<T>>, t: nat, p: nat)
    requires t < |ss| && p < |ss[t]|
    ensures Pos(ss, t, p) < |Concat(ss)|
    ensures Concat(ss)[Pos(ss, t, p)] == ss[t][p]
  {
    var n := |ss| - 1;
    assert ss[..n + 1] == ss;
    if t < n {
      ConcatPlaces(ss[..n], t, p);
      assert ss[..n][..t] == ss[..t];
    }
  }

  /** Cutting the list of sequences short moves none of the positions. */
  lemma PosOfPrefix<T>(ss: seq<seq<T>>, n: nat)
    requires n <= |ss|
    ensures forall t, p | 0 <= t < n :: Pos(ss[..n], t, p) == Pos(ss, t, p)
  {
    forall t, p | 0 <= t < n
      ensures Pos(ss[..n], t, p) == Pos(ss, t, p)
    {
      assert ss[..n][..t] == ss[..t];
    }
  }

  /** The geometry `_computeFramesPerTexture` and the frame aspect
      produce: frame cell size, frames across a texture, frames per
      texture, the number of textures and the area of a cell a frame uses. */
  datatype Geometry = Geometry(
    frameWidth: nat, frameHeight: nat, across: nat, perTexture: nat, textures: nat,
    usedWidth: nat, usedHeight: nat)

  /** The frames of texture `i`: `frames[i * perTexture:(i + 1) * perTexture]`. */
  function Chunk(frames: seq<nat>, perTexture: nat, i: nat): seq<nat> {
    Slice(frames, i * perTexture, (i + 1) * perTexture)
  }

  /** The frames of the first `count` textures. */
  function TextureLists(frames: seq<nat>, perTexture: nat, count: nat): (r: seq<seq<nat>>)
    ensures |r| == count
    ensures forall i | 0 <= i < count :: r[i] == Chunk(frames, perTexture, i)
  {
    if count == 0 then []
    else
      var i := count - 1;
      TextureLists(frames, perTexture, i) + [Chunk(frames, perTexture, i)]
  }

  /** The first `n` elements, or all of them when there are fewer. */
  function Take<T>(s: seq<T>, n: nat): seq<T> {
    if n <= |s| then s[..n] else s
  }

  /** The frames `count` textures of `perTexture` frames each can hold:
      the first `count * perTexture`, or all when there are fewer. */
  function Held(frames: seq<nat>, perTexture: nat, count: nat): seq<nat> {
    Take(frames, count * perTexture)
  }

  lemma SliceJoin<T>(s: seq<T>, a: nat, b: nat)
    requires a <= b
    ensures Take(s, a) + Slice(s, a, b) == Take(s, b)
  {
  }

  /** Enough textures take every frame, in order, each exactly once. */
  lemma {:induction false} TexturesCoverFrames(frames: seq<nat>, perTexture: nat, count: nat)
    ensures Concat(TextureLists(frames, perTexture, count)) == Held(frames, perTexture, count)
  {
    if count > 0 {
      var i := count - 1;
      TexturesCoverFrames(frames, perTexture, i);
      var lists := TextureLists(frames, perTexture, count);
      assert lists[..i] == TextureLists(frames, perTexture, i);
      var lo, hi := i * perTexture, count * perTexture;
      assert hi == lo + perTexture;
      assert lists[i] == Slice(frames, lo, hi);
      SliceJoin(frames, lo, hi);
    }
  }

  /** The image extent every quad covers, with the crop of the texture
      that shows the frame; y runs upwards from the bottom of the texture. */
  datatype Quad = Quad(width: nat, height: nat, left: int, top: int, right: int, bottom: int)

  /** `math.ceil(a / b)` for naturals. */
  function CeilDiv(a: nat, b: nat): nat
    requires b >= 1
  {
    (a + b - 1) / b
  }

  /** The quad of the `index`-th of `count` frames in a texture: frames
      fill the texture row by row, `across` to a row. */
  function QuadAt(sizeX: nat, sizeY: nat, g: Geometry, count: nat, index: nat): (q: Quad)
    requires g.across >= 1 && index < count
    ensures q.right - q.left == g.usedWidth && q.bottom - q.top == g.usedHeight
    ensures q.width == sizeX && q.height == sizeY
  {
    var rows := CeilDiv(count, g.across);
    var perRow := if count < g.across then count else g.across;
    var col, row := index % perRow, index / perRow;
    Quad(sizeX, sizeY,
         col * g.frameWidth, (rows - row) * g.frameHeight - g.usedHeight,
         col * g.frameWidth + g.usedWidth, (rows - row) * g.frameHeight)
  }

  lemma DivMonotone(x: nat, y: nat, m: nat)
    requires m >= 1 && x <= y
    ensures x / m <= y / m
  {
    if x / m > y / m {
      MulMonotone(y / m + 1, x / m, m);
    }
  }

  /** The row of a frame is one of the texture's rows. */
  lemma RowInRange(count: nat, across: nat, index: nat)
    requires across >= 1 && index < count
    ensures var perRow := if count < across then count else across;
            perRow >= 1 && index / perRow < CeilDiv(count, across)
  {
    if count < across {
      DivModUnique(index, count, 0, index);
      DivMonotone(across, count + across - 1, across);
      DivModUnique(across, across, 1, 0);
    } else {
      DivModUnique(index + across, across, index / across + 1, index % across);
      DivMonotone(index + across, count + across - 1, across);
    }
  }

  /** Every quad lies inside its texture: within the rows the texture
      holds, and, when the used area fits in a cell, inside its cell. */
  lemma QuadInTexture(sizeX: nat, sizeY: nat, g: Geometry, count: nat, index: nat)
    requires g.across >= 1 && index < count
    ensures var q := QuadAt(sizeX, sizeY, g, count, index);
            && q.left >= 0 && q.bottom <= CeilDiv(count, g.across) * g.frameHeight
            && q.bottom >= g.frameHeight
            && (g.usedHeight <= g.frameHeight ==> q.top >= 0)
            && (g.usedWidth <= g.frameWidth ==> q.right <= g.across * g.frameWidth)
  {
    var rows := CeilDiv(count, g.across);
    var perRow := if count < g.across then count else g.across;
    RowInRange(count, g.across, index);
    var col, row := index % perRow, index / perRow;
    var q := QuadAt(sizeX, sizeY, g, count, index);
    assert q.left == col * g.frameWidth && q.right == q.left + g.usedWidth;
    assert q.bottom == (rows - row) * g.frameHeight && q.top == q.bottom - g.usedHeight;
    assert col < perRow <= g.across && row < rows;
    CellBounds(col, g.across, g.frameWidth, rows - row, rows, g.frameHeight);
    assert rows * g.frameHeight == CeilDiv(count, g.across) * g.frameHeight;
  }

  /** A cell in column `col < across` and row `1 <= k <= rows` from the
      bottom lies between the texture's edges. */
  lemma CellBounds(col: nat, across: nat, w: nat, k: nat, rows: nat, h: nat)
    requires col < across && 1 <= k <= rows
    ensures 0 <= col * w && col * w + w <= across * w
    ensures h <= k * h <= rows * h
  {
    MulMonotone(k, rows, h);
    MulMonotone(1, k, h);
    MulMonotone(col + 1, across, w);
  }

  lemma SameCellSameIndex(i: nat, j: nat, m: nat)
    requires m >= 1 && i % m == j % m && i / m == j / m
    ensures i == j
  {
  }

  /** Two frames of one texture never share a cell. */
  lemma QuadCellsDistinct(sizeX: nat, sizeY: nat, g: Geometry, count: nat, i: nat, j: nat)
    requires g.across >= 1 && i < count && j < count && i != j
    requires g.frameWidth >= 1 && g.frameHeight >= 1
    ensures QuadAt(sizeX, sizeY, g, count, i).left != QuadAt(sizeX, sizeY, g, count, j).left
         || QuadAt(sizeX, sizeY, g, count, i).bottom != QuadAt(sizeX, sizeY, g, count, j).bottom
  {
    var rows := CeilDiv(count, g.across);
    var perRow := if count < g.across then count else g.across;
    var ci, cj, ri, rj := i % perRow, j % perRow, i / perRow, j / perRow;
    if ci != cj {
      if ci < cj {
        MulStrict(ci, cj, g.frameWidth);
      } else {
        MulStrict(cj, ci, g.frameWidth);
      }
    } else {
      assert ri != rj by {
        if ri == rj {
          SameCellSameIndex(i, j, perRow);
        }
      }
      RowInRange(count, g.across, i);
      RowInRange(count, g.across, j);
      if ri < rj {
        MulStrict(rows - rj, rows - ri, g.frameHeight);
      } else {
        MulStrict(rows - ri, rows - rj, g.frameHeight);
      }
    }
  }

  /** The quads of a texture showing `count` frames. */
  function TextureQuads(sizeX: nat, sizeY: nat, g: Geometry, count: nat): (r: seq<Quad>)
    requires g.across >= 1
    ensures |r| == count
  {
    seq(count, index requires 0 <= index < count => QuadAt(sizeX, sizeY, g, count, index))
  }

  /** The tile_frames request for one texture.  The source sends the frame
      list only when its length differs from the image's frame count. */
  datatype Request = Request(
    framesAcross: nat, width: nat, height: nat, fill: string, exact: bool, frameList: Option<seq<nat>>)

  /** The frames a request makes tile_frames draw: its list, or every
      frame of the image in order. */
  function Drawn(r: Request, imageFrames: nat): seq<nat> {
    if r.frameList.Some? then r.frameList.value else AllFrames(imageFrames)
  }

  /** `range(n)`. */
  function AllFrames(n: nat): (r: seq<nat>)
    ensures |r| == n && forall i | 0 <= i < n :: r[i] == i
  {
    if n == 0 then [] else AllFrames(n - 1) + [n - 1]
  }

  /** The request as written: the list is left out whenever it has as
      many frames as the image. */
  function RequestAsWritten(g: Geometry, frames: seq<nat>, imageFrames: nat): (r: Request)
    ensures r.frameList.Some? <==> |frames| != imageFrames
    ensures r.frameList.Some? ==> r.frameList.value == frames
    ensures r.framesAcross == g.across && r.width == g.frameWidth && r.height == g.frameHeight
  {
    Request(g.across, g.frameWidth, g.frameHeight, "corner:black", false,
            if |frames| != imageFrames then Some(frames) else None)
  }

  /** A reordered list of all frames loses its order. */
  lemma ReorderedListDropped()
    ensures var g := Geometry(16, 16, 2, 4, 1, 16, 16);
            var frames := FrameList(4, 0, 1, 2);
            && frames == Ok([0, 2, 1, 3])
            && Drawn(RequestAsWritten(g, frames.value, 4), 4) == [0, 1, 2, 3]
            && IndexOf(frames.value)[2] == 1
  {
    ExampleGroups();
    ExampleIndex();
    AllFramesFour();
  }

  lemma AllFramesFour()
    ensures AllFrames(4) == [0, 1, 2, 3]
  {
    assert AllFrames(2) == [0, 1];
  }

  /** Four frames in two groups come out as 0, 2, 1, 3. */
  lemma ExampleGroups()
    ensures FrameList(4, 0, 1, 2) == Ok([0, 2, 1, 3])
  {
    assert RangeSeq(0, 4, 2) == [0] + RangeSeq(2, 4, 2);
    assert RangeSeq(2, 4, 2) == [2] + RangeSeq(4, 4, 2);
    assert RangeSeq(1, 4, 2) == [1] + RangeSeq(3, 4, 2);
    assert RangeSeq(3, 4, 2) == [3] + RangeSeq(5, 4, 2);
    assert Groups(4, 0, 1, 2, 1) == RangeSeq(1, 4, 2) + Groups(4, 0, 1, 2, 2);
    assert Groups(4, 0, 1, 2, 0) == [0, 2, 1, 3];
  }

  /** Frame 2 is at position 1 of the list 0, 2, 1, 3. */
  lemma ExampleIndex()
    ensures IndexOf([0, 2, 1, 3])[2] == 1
  {
    assert [0, 2, 1, 3][..3] == [0, 2, 1];
    assert [0, 2, 1][..2] == [0, 2];
    assert [0, 2][..1] == [0];
    assert IndexOf([0, 2, 1]) == IndexOf([0, 2])[1 := 2];
    assert IndexOf([0, 2]) == IndexOf([0])[2 := 1];
  }

  /** The request as intended: the list is left out only when it is every
      frame of the image in order. */
  function RequestFor(g: Geometry, frames: seq<nat>, imageFrames: nat): (r: Request)
    ensures Drawn(r, imageFrames) == frames
    ensures r.framesAcross == g.across && r.width == g.frameWidth && r.height == g.frameHeight
  {
    Request(g.across, g.frameWidth, g.frameHeight, "corner:black", false,
            if frames != AllFrames(imageFrames) then Some(frames) else None)
  }

  /** One request per texture, each drawing that texture's frames. */
  function Requests(g: Geometry, lists: seq<seq<nat>>, imageFrames: nat): (r: seq<Request>)
    ensures |r| == |lists|
    ensures forall i | 0 <= i < |lists| :: Drawn(r[i], imageFrames) == lists[i]
  {
    seq(|lists|, i requires 0 <= i < |lists| => RequestFor(g, lists[i], imageFrames))
  }

  /** `count` copies of texture number `i`. */
  function Owners(i: nat, count: nat): (r: seq<nat>)
    ensures |r| == count && forall k | 0 <= k < count :: r[k] == i
  {
    if count == 0 then [] else Owners(i, count - 1) + [i]
  }

  /** The `p`-th quad of texture `t` sits at `Pos(lists, t, p)`, names
      texture `t` as its owner, and is that frame's cell of the texture. */
  ghost predicate Placed(sizeX: nat, sizeY: nat, g: Geometry, lists: seq<seq<nat>>, quads: seq<Quad>, owners: seq<nat>)
    requires g.across >= 1
  {
    forall t, p | 0 <= t < |lists| && 0 <= p < |lists[t]| ::
      && Pos(lists, t, p) < |quads| && Pos(lists, t, p) < |owners|
      && owners[Pos(lists, t, p)] == t
      && quads[Pos(lists, t, p)] == QuadAt(sizeX, sizeY, g, |lists[t]|, p)
  }

  /** The `p`-th frame of list `t` is the frame at `Pos(lists, t, p)` of
      `frames`: drawing the lists in order draws `frames` in order. */
  ghost predicate Shows(frames: seq<nat>, lists: seq<seq<nat>>) {
    forall t, p | 0 <= t < |lists| && 0 <= p < |lists[t]| ::
      Pos(lists, t, p) < |frames| && frames[Pos(lists, t, p)] == lists[t][p]
  }

  /** Appending the last texture's quads keeps the earlier textures' quads
      where they were and puts the new ones right after them. */
  lemma LayOutStep(sizeX: nat, sizeY: nat, g: Geometry, lists: seq<seq<nat>>, quads: seq<Quad>, owners: seq<nat>)
    requires g.across >= 1 && |lists| >= 1
    requires |quads| == |owners| == |Concat(lists[..|lists| - 1])|
    requires Placed(sizeX, sizeY, g, lists[..|lists| - 1], quads, owners)
    ensures var i := |lists| - 1;
            Placed(sizeX, sizeY, g, lists,
                   quads + TextureQuads(sizeX, sizeY, g, |lists[i]|), owners + Owners(i, |lists[i]|))
  {
    var i := |lists| - 1;
    var front := lists[..i];
    var count := |lists[i]|;
    var q := quads + TextureQuads(sizeX, sizeY, g, count);
    var o := owners + Owners(i, count);
    PosOfPrefix(lists, i);
    forall t, p | 0 <= t < |lists| && 0 <= p < |lists[t]|
      ensures && Pos(lists, t, p) < |q| && Pos(lists, t, p) < |o|
              && o[Pos(lists, t, p)] == t
              && q[Pos(lists, t, p)] == QuadAt(sizeX, sizeY, g, |lists[t]|, p)
    {
      if t < i {
        assert front[t] == lists[t];
        assert Pos(front, t, p) == Pos(lists, t, p);
        assert QuadAt(sizeX, sizeY, g, |front[t]|, p) == QuadAt(sizeX, sizeY, g, |lists[t]|, p);
        var k := Pos(lists, t, p);
        assert k < |quads| && owners[k] == t;
        assert o[k] == owners[k] && q[k] == quads[k];
      } else {
        assert lists[..t] == front;
        assert o[|quads| + p] == Owners(i, count)[p];
        assert q[|quads| + p] == TextureQuads(sizeX, sizeY, g, count)[p];
      }
    }
    assert Placed(sizeX, sizeY, g, lists, q, o);
  }

  /** What `getTileFramesQuadInfo` returns for one frame base. */
  datatype Status = Status(
    frames: seq<nat>, framesToIdx: map<nat, nat>, src: seq<Request>, quads: seq<Quad>, quadsToIdx: seq<nat>)

  /** The quads of the textures holding `lists`, with the texture each
      belongs to. */
  function LayOut(sizeX: nat, sizeY: nat, g: Geometry, lists: seq<seq<nat>>): (r: (seq<Quad>, seq<nat>))
    requires g.across >= 1
    ensures |r.0| == |r.1| == |Concat(lists)|
    ensures forall k | 0 <= k < |r.1| :: r.1[k] < |lists|
    ensures forall k | 0 <= k < |r.0| ::
              r.0[k].right - r.0[k].left == g.usedWidth && r.0[k].bottom - r.0[k].top == g.usedHeight
    ensures Placed(sizeX, sizeY, g, lists, r.0, r.1)
  {
    if lists == [] then ([], [])
    else
      var i := |lists| - 1;
      var (quads, owners) := LayOut(sizeX, sizeY, g, lists[..i]);
      var count := |lists[i]|;
      LayOutStep(sizeX, sizeY, g, lists, quads, owners);
      (quads + TextureQuads(sizeX, sizeY, g, count), owners + Owners(i, count))
  }

  /** The status for a frame list: the index of every frame, one request
      per texture and the quads of all textures. */
  function Assemble(imageFrames: nat, sizeX: nat, sizeY: nat, frames: seq<nat>, g: Geometry): (r: Status)
    requires g.across >= 1 && Distinct(frames)
    ensures r.frames == frames
    ensures (forall f :: f in r.framesToIdx <==> f in frames)
            && (forall i | 0 <= i < |frames| :: r.framesToIdx[frames[i]] == i)
    ensures |r.src| == g.textures
    ensures forall i | 0 <= i < g.textures ::
              Drawn(r.src[i], imageFrames) == Chunk(frames, g.perTexture, i)
    ensures |r.quads| == |r.quadsToIdx| == |Held(frames, g.perTexture, g.textures)|
    ensures forall k | 0 <= k < |r.quadsToIdx| :: r.quadsToIdx[k] < g.textures
    ensures var lists := TextureLists(frames, g.perTexture, g.textures);
            Placed(sizeX, sizeY, g, lists, r.quads, r.quadsToIdx) && Shows(frames, lists)
  {
    IndexOfInverse(frames);
    var lists := TextureLists(frames, g.perTexture, g.textures);
    TexturesLaidOut(imageFrames, sizeX, sizeY, frames, g);
    var layout := LayOut(sizeX, sizeY, g, lists);
    Status(frames, IndexOf(frames), Requests(g, lists, imageFrames), layout.0, layout.1)
  }

  /** The requests and quads of the textures `Assemble` fills. */
  lemma TexturesLaidOut(imageFrames: nat, sizeX: nat, sizeY: nat, frames: seq<nat>, g: Geometry)
    requires g.across >= 1
    ensures var lists := TextureLists(frames, g.perTexture, g.textures);
            var src := Requests(g, lists, imageFrames);
            var layout := LayOut(sizeX, sizeY, g, lists);
            && |src| == g.textures
            && (forall i | 0 <= i < g.textures ::
                  Drawn(src[i], imageFrames) == Chunk(frames, g.perTexture, i))
            && |layout.0| == |layout.1| == |Held(frames, g.perTexture, g.textures)|
            && (forall k | 0 <= k < |layout.1| :: layout.1[k] < g.textures)
            && Placed(sizeX, sizeY, g, lists, layout.0, layout.1) && Shows(frames, lists)
  {
    var lists := TextureLists(frames, g.perTexture, g.textures);
    assert |lists| == g.textures;
    TexturesCoverFrames(frames, g.perTexture, g.textures);
    LayOutShowsFrames(sizeX, sizeY, g, lists, frames, g.perTexture, g.textures);
  }

  /** When the lists join up to the first frames of `frames`, quad
      `Pos(lists, t, p)` is list `t`'s cell for its `p`-th frame, which is
      the frame at the same position of `frames`. */
  lemma LayOutShowsFrames(
    sizeX: nat, sizeY: nat, g: Geometry, lists: seq<seq<nat>>, frames: seq<nat>, perTexture: nat, count: nat)
    requires g.across >= 1 && Concat(lists) == Held(frames, perTexture, count)
    ensures Placed(sizeX, sizeY, g, lists, LayOut(sizeX, sizeY, g, lists).0, LayOut(sizeX, sizeY, g, lists).1)
    ensures Shows(frames, lists)
  {
    forall t, p | 0 <= t < |lists| && 0 <= p < |lists[t]|
      ensures Pos(lists, t, p) < |frames| && frames[Pos(lists, t, p)] == lists[t][p]
    {
      var k := Pos(lists, t, p);
      ConcatPlaces(lists, t, p);
      assert k < |Held(frames, perTexture, count)| <= |frames|;
      assert Held(frames, perTexture, count)[k] == frames[k];
    }
  }

  /** Two frames a texture draws get quads owned by that texture and
      placed in different cells of it. */
  lemma AssembledCellsDistinct(
    imageFrames: nat, sizeX: nat, sizeY: nat, frames: seq<nat>, g: Geometry, t: nat, p1: nat, p2: nat)
    requires g.across >= 1 && g.frameWidth >= 1 && g.frameHeight >= 1 && Distinct(frames)
    requires t < g.textures && p1 < |Chunk(frames, g.perTexture, t)| && p2 < |Chunk(frames, g.perTexture, t)|
    requires p1 != p2
    ensures var r := Assemble(imageFrames, sizeX, sizeY, frames, g);
            var lists := TextureLists(frames, g.perTexture, g.textures);
            var k1, k2 := Pos(lists, t, p1), Pos(lists, t, p2);
            && k1 < |r.quads| && k2 < |r.quads|
            && r.quadsToIdx[k1] == t && r.quadsToIdx[k2] == t
            && (r.quads[k1].left != r.quads[k2].left || r.quads[k1].bottom != r.quads[k2].bottom)
  {
    var r := Assemble(imageFrames, sizeX, sizeY, frames, g);
    var lists := TextureLists(frames, g.perTexture, g.textures);
    var count := |lists[t]|;
    assert QuadAt(sizeX, sizeY, g, count, p1) == r.quads[Pos(lists, t, p1)];
    assert QuadAt(sizeX, sizeY, g, count, p2) == r.quads[Pos(lists, t, p2)];
    QuadCellsDistinct(sizeX, sizeY, g, count, p1, p2);
  }

  /** `getTileFramesQuadInfo` for a numeric frame base, stride and group
      stride, given the texture geometry.  An image without frames counts
      as one frame.  An empty frame list fails: `_computeFramesPerTexture`
      then gets zero frames, and so zero frames per texture, and divides by
      it. */
  function QuadInfo(imageFrames: nat, sizeX: nat, sizeY: nat, base: nat, stride: nat, groupStride: nat, g: Geometry)
    : (r: Result<Status, FrameError>)
    requires g.across >= 1
    ensures var numFrames := if imageFrames == 0 then 1 else imageFrames;
            r.Err? <==> (stride == 0 && groupStride >= 1) || groupStride == 0 || base >= numFrames
    ensures r.Err? ==> (r.error == ZeroStep <==> stride == 0 && groupStride >= 1)
    ensures r.Ok? ==> stride >= 1 && groupStride >= 1
    ensures r.Ok? ==>
              forall f: nat :: f in r.value.frames <==>
                f < (if imageFrames == 0 then 1 else imageFrames) && OnStride(f, base, stride)
    ensures r.Ok? ==> r.value.frames != [] && Distinct(r.value.frames)
    ensures r.Ok? ==> r.value == Assemble(imageFrames, sizeX, sizeY, r.value.frames, g)
  {
    var numFrames := if imageFrames == 0 then 1 else imageFrames;
    var frames :- FrameList(numFrames, base, stride, groupStride);
    if frames == [] then
      assert groupStride >= 1 && stride >= 1 ==> base !in frames;
      Err(NoFrames)
    else
      assert frames[0] in frames;
      Ok(Assemble(imageFrames, sizeX, sizeY, frames, g))
  }
}
