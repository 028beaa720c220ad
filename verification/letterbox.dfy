/** The geometry of letterboxing and pillarboxing an image to a target
    size without cropping (large_image/tilesource/utilities.py:243-267).
    Colour-name resolution and the pixel paste itself are not modelled:
    the result says how large the canvas is, where the image goes and
    which fill name is looked up. */
module Letterbox {
  import opened Wrappers
  import opened Strings

  /** The outcome: the image as it is, or a canvas of the given size in
      the fill colour with the image pasted at (`left`, `top`). */
  datatype Placement =
    | Unchanged
    | Canvas(width: nat, height: nat, left: nat, top: nat, fill: string)

  /** A fill that asks for no letterboxing: absent, empty or `'none'` in
      any case. */
  predicate NoFill(fill: Option<string>) {
    fill.None? || fill.value == "" || Lower(fill.value) == "none"
  }

  /** A `corner:` fill, which pins the image to the top-left corner. */
  predicate IsCorner(fill: string) {
    StartsWith(Lower(fill), "corner:")
  }

  /** `_letterboxImage`. */
  function Letterbox(imageWidth: nat, imageHeight: nat, width: nat, height: nat, fill: Option<string>)
    : (r: Placement)
    ensures r.Unchanged? <==> (imageWidth >= width && imageHeight >= height) || NoFill(fill)
    ensures r.Canvas? ==> r.width == if width > imageWidth then width else imageWidth
    ensures r.Canvas? ==> r.height == if height > imageHeight then height else imageHeight
    ensures r.Canvas? ==> r.left + imageWidth <= r.width && r.top + imageHeight <= r.height
    ensures r.Canvas? && IsCorner(fill.value) ==> r.left == 0 && r.top == 0 && r.fill == fill.value[7..]
    ensures r.Canvas? && !IsCorner(fill.value) ==>
              && r.left == (r.width - imageWidth) / 2 && r.top == (r.height - imageHeight) / 2
              && r.fill == fill.value
  {
    if (imageWidth >= width && imageHeight >= height) || NoFill(fill) then Unchanged
    else
      var w := if width > imageWidth then width else imageWidth;
      var h := if height > imageHeight then height else imageHeight;
      if IsCorner(fill.value) then
        assert |fill.value| >= 7;
        Canvas(w, h, 0, 0, fill.value[7..])
      else
        Canvas(w, h, (w - imageWidth) / 2, (h - imageHeight) / 2, fill.value)
  }

  /** A centred image has margins on the two sides that differ by at most
      one pixel, the extra one on the right or bottom. */
  lemma CentredMargins(imageWidth: nat, imageHeight: nat, width: nat, height: nat, fill: Option<string>)
    requires Letterbox(imageWidth, imageHeight, width, height, fill).Canvas?
    requires !IsCorner(fill.value)
    ensures var r := Letterbox(imageWidth, imageHeight, width, height, fill);
            && r.left <= r.width - imageWidth - r.left <= r.left + 1
            && r.top <= r.height - imageHeight - r.top <= r.top + 1
  {
  }

  /** The canvas already has the target size, so letterboxing it again
      leaves it unchanged. */
  lemma LetterboxOnce(imageWidth: nat, imageHeight: nat, width: nat, height: nat, fill: Option<string>)
    requires Letterbox(imageWidth, imageHeight, width, height, fill).Canvas?
    ensures var r := Letterbox(imageWidth, imageHeight, width, height, fill);
            Letterbox(r.width, r.height, width, height, fill).Unchanged?
  {
  }

  /** The image is only ever enlarged around, never cropped: the canvas
      is at least as large as both the image and the target, and no larger
      than the larger of the two. */
  lemma CanvasIsLeastCover(imageWidth: nat, imageHeight: nat, width: nat, height: nat, fill: Option<string>)
    requires Letterbox(imageWidth, imageHeight, width, height, fill).Canvas?
    ensures var r := Letterbox(imageWidth, imageHeight, width, height, fill);
            && r.width >= imageWidth && r.width >= width && (r.width == imageWidth || r.width == width)
            && r.height >= imageHeight && r.height >= height && (r.height == imageHeight || r.height == height)
  {
  }
}
