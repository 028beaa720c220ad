/** Pixel blocks as a size plus a pixel function, and the block operations
    the tile sources apply: zero padding, resizing with a given filter and
    strided slicing. */
module Pixels {
  import opened Arith

  /** One pixel: its channel values. */
  type Pixel = seq<int>

  /** A `width` x `height` block with `bands` channels; `at(i, j)` is the
      pixel in column `i` and row `j`, meaningful inside the block. */
  datatype Block = Block(width: nat, height: nat, bands: nat, at: (nat, nat) -> Pixel)

  /** The zero-valued pixel with the given channel count. */
  function Zero(bands: nat): (p: Pixel)
    ensures |p| == bands
    ensures forall c | 0 <= c < bands :: p[c] == 0
  {
    seq(bands, _ => 0)
  }

  /** The top-left `w` x `h` window of `b`, zero beyond `b`'s right and
      bottom edges.  With `w >= b.width` and `h >= b.height` this is
      `np.pad` with `(0, h - height), (0, w - width)` and constant zero. */
  function Fit(b: Block, w: nat, h: nat): (r: Block)
    ensures r.width == w && r.height == h && r.bands == b.bands
    ensures forall i: nat, j: nat | i < w && j < h && i < b.width && j < b.height ::
      r.at(i, j) == b.at(i, j)
    ensures forall i: nat, j: nat | i < w && j < h && (b.width <= i || b.height <= j) ::
      r.at(i, j) == Zero(b.bands)
  {
    Block(w, h, b.bands, (i: nat, j: nat) =>
      if i < b.width && j < b.height then b.at(i, j) else Zero(b.bands))
  }

  /** Two blocks of one size whose pixels agree inside it. */
  predicate SameBlock(a: Block, b: Block)
  {
    && a.width == b.width && a.height == b.height && a.bands == b.bands
    && forall i: nat, j: nat | i < a.width && j < a.height :: a.at(i, j) == b.at(i, j)
  }

  /** A resampling filter: given a block's pixels as rows and the output
      size, the output's pixel function.  It stands for Pillow's default
      filter for the image's mode, which the model leaves abstract; by
      seeing rows only, it sees nothing outside the block. */
  type Filter = (seq<seq<Pixel>>, nat, nat) -> ((nat, nat) -> Pixel)

  /** The pixels inside `b`, row by row. */
  function Rows(b: Block): (rows: seq<seq<Pixel>>)
    ensures |rows| == b.height
    ensures forall j | 0 <= j < b.height :: |rows[j]| == b.width
    ensures forall i: nat, j: nat | i < b.width && j < b.height :: rows[j][i] == b.at(i, j)
  {
    seq(b.height, (j: int) => seq(b.width, (i: int) => if i >= 0 && j >= 0 then b.at(i, j) else []))
  }

  /** A `w` x `h` resampling of `b` with `filter`: the requested size, the
      source's band count, and pixels that depend only on the source's
      pixels inside it. */
  function Resize(filter: Filter, b: Block, w: nat, h: nat): (r: Block)
    ensures r.width == w && r.height == h && r.bands == b.bands
  {
    Block(w, h, b.bands, filter(Rows(b), w, h))
  }

  lemma StrideInside(i: nat, step: nat, n: nat)
    requires step >= 1 && i < CeilDiv(n, step)
    ensures i * step < n
  {
    var q := CeilDiv(n, step);
    MulMonotonic(i, q - 1, step);
  }

  /** Resampling depends only on the pixels inside the block: blocks that
      agree there resample to the same block. */
  lemma ResizeRespectsSame(filter: Filter, a: Block, b: Block, w: nat, h: nat)
    requires SameBlock(a, b)
    ensures Resize(filter, a, w, h) == Resize(filter, b, w, h)
  {
    RowsOfSame(a, b);
  }

  /** Blocks that agree inside their common size have the same rows. */
  lemma RowsOfSame(a: Block, b: Block)
    requires SameBlock(a, b)
    ensures Rows(a) == Rows(b)
  {
    var ra, rb := Rows(a), Rows(b);
    forall j | 0 <= j < a.height ensures ra[j] == rb[j] {
      assert |ra[j]| == |rb[j]|;
      forall i | 0 <= i < a.width ensures ra[j][i] == rb[j][i] {
        assert ra[j][i] == a.at(i, j) == b.at(i, j) == rb[j][i];
      }
    }
  }
}
