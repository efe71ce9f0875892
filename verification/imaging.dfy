/** RGBA pixel grids and the image-library primitives the pipeline calls:
    blank canvases, crop, paste with an alpha mask, and the transposes. */
module Imaging {

  newtype byte = b: int | 0 <= b < 256

  /** One four-channel pixel, every channel one byte. */
  datatype Pixel = Pixel(r: byte, g: byte, b: byte, a: byte)

  /** The fill colour of a new "RGBA" canvas: (0, 0, 0, 0). */
  const Transparent: Pixel := Pixel(0, 0, 0, 0)

  /** How a pixel `src` with a partial alpha `a` (0 < a < 255) is blended over
      `dst` when pasted with its own alpha as the mask; the image library's
      arithmetic for this case is kept abstract. */
  type Blend = (Pixel, Pixel, byte) -> Pixel

  /** A `width` x `height` RGBA image; `pixel` is consulted only inside the grid. */
  datatype Image = Image(width: nat, height: nat, pixel: (int, int) -> Pixel) {

    predicate Contains(x: int, y: int) {
      0 <= x < width && 0 <= y < height
    }

    /** The pixel in column `x`, row `y`; transparent outside the grid, which
        is also what the library yields when a crop box leaves the image. */
    function At(x: int, y: int): Pixel {
      if Contains(x, y) then pixel(x, y) else Transparent
    }
  }

  /** Two images show the same picture: one size, and equal pixels throughout. */
  predicate Same(a: Image, b: Image) {
    a.width == b.width && a.height == b.height &&
    forall x, y :: 0 <= x < a.width && 0 <= y < a.height ==> a.At(x, y) == b.At(x, y)
  }

  /** The same picture reads the same at every position, inside the grid or not. */
  lemma SameEverywhere(a: Image, b: Image)
    requires Same(a, b)
    ensures forall x, y :: a.At(x, y) == b.At(x, y)
  {
    forall x, y
      ensures a.At(x, y) == b.At(x, y)
    {
      if a.Contains(x, y) {
        assert a.At(x, y) == b.At(x, y);
      }
    }
  }

  lemma SameSymmetric(a: Image, b: Image)
    requires Same(a, b)
    ensures Same(b, a)
  {
  }

  lemma SameTransitive(a: Image, b: Image, c: Image)
    requires Same(a, b) && Same(b, c)
    ensures Same(a, c)
  {
  }

  /** The `w` x `h` image whose pixel at (x, y) is `f(x, y)`. */
  function Build(w: nat, h: nat, f: (int, int) -> Pixel): (im: Image)
    ensures im.width == w && im.height == h
    ensures forall x, y :: 0 <= x < w && 0 <= y < h ==> im.At(x, y) == f(x, y)
  {
    Image(w, h, f)
  }

  /** `Image.new("RGBA", (w, h), (0, 0, 0, 0))` */
  function Blank(w: nat, h: nat): (im: Image)
    ensures im.width == w && im.height == h
    ensures forall x, y :: im.At(x, y) == Transparent
  {
    Build(w, h, (x, y) => Transparent)
  }

  /** The pixel a masked paste leaves at one position: the mask is the source's
      own alpha, so alpha 0 keeps the destination and alpha 255 copies the source. */
  function Over(dst: Pixel, src: Pixel, blend: Blend): (p: Pixel)
    ensures src.a == 0 ==> p == dst
    ensures src.a == 255 ==> p == src
  {
    if src.a == 0 then dst else if src.a == 255 then src else blend(dst, src, src.a)
  }

  /** Alpha is binary and every fully transparent pixel is (0, 0, 0, 0). */
  predicate Crisp(p: Pixel) {
    p == Transparent || p.a == 255
  }

  predicate CrispImage(im: Image) {
    forall x, y :: 0 <= x < im.width && 0 <= y < im.height ==> Crisp(im.At(x, y))
  }

  /** Pasting a crisp pixel onto a transparent one gives the pixel back. */
  lemma OverTransparentCrisp(p: Pixel, blend: Blend)
    requires Crisp(p)
    ensures Over(Transparent, p, blend) == p
  {
  }

  /** The position (x, y) lies under `src` placed at (px, py). */
  predicate Covers(src: Image, px: int, py: int, x: int, y: int) {
    px <= x < px + src.width && py <= y < py + src.height
  }

  /** `dst.paste(src, (px, py), src)`: `src` placed with its top-left corner at
      (px, py), clipped to `dst`, each position combined by `Over`. */
  function Paste(dst: Image, src: Image, px: int, py: int, blend: Blend): (im: Image)
    ensures im.width == dst.width && im.height == dst.height
  {
    Build(dst.width, dst.height,
      (x, y) => if Covers(src, px, py, x, y) then Over(dst.At(x, y), src.At(x - px, y - py), blend)
                else dst.At(x, y))
  }

  /** `im.crop((x0, y0, x0 + w, y0 + h))`; positions outside `im` come out transparent. */
  function Crop(im: Image, x0: int, y0: int, w: nat, h: nat): (c: Image)
    ensures c.width == w && c.height == h
  {
    Build(w, h, (x, y) => im.At(x0 + x, y0 + y))
  }

  /** `Image.FLIP_LEFT_RIGHT` */
  function FlipLeftRight(im: Image): (f: Image)
    ensures f.width == im.width && f.height == im.height
  {
    Build(im.width, im.height, (x, y) => im.At(im.width - 1 - x, y))
  }

  /** `Image.FLIP_TOP_BOTTOM` */
  function FlipTopBottom(im: Image): (f: Image)
    ensures f.width == im.width && f.height == im.height
  {
    Build(im.width, im.height, (x, y) => im.At(x, im.height - 1 - y))
  }

  /** `Image.ROTATE_180` */
  function HalfTurn(im: Image): (f: Image)
    ensures f.width == im.width && f.height == im.height
  {
    Build(im.width, im.height, (x, y) => im.At(im.width - 1 - x, im.height - 1 - y))
  }

  /** `Image.ROTATE_270`: a clockwise quarter turn; the result is height x width. */
  function TurnClockwise(im: Image): (f: Image)
    ensures f.width == im.height && f.height == im.width
  {
    Build(im.height, im.width, (x, y) => im.At(y, im.height - 1 - x))
  }

  /** `Image.ROTATE_90`: a counter-clockwise quarter turn; the result is height x width. */
  function TurnCounterClockwise(im: Image): (f: Image)
    ensures f.width == im.height && f.height == im.width
  {
    Build(im.height, im.width, (x, y) => im.At(im.width - 1 - y, x))
  }

  /** Each pixel as a masked paste onto a transparent canvas leaves it. */
  function Settle(im: Image, blend: Blend): (s: Image)
    ensures s.width == im.width && s.height == im.height
  {
    Build(im.width, im.height, (x, y) => Over(Transparent, im.At(x, y), blend))
  }

  // ---------------------------------------------------------------------
  // Where each primitive takes its pixels from
  // ---------------------------------------------------------------------

  /** Inside `dst`, a position under `src` combines the two by `Over`; every
      other position keeps the destination pixel. */
  lemma PasteAt(dst: Image, src: Image, px: int, py: int, blend: Blend, x: int, y: int)
    requires dst.Contains(x, y)
    ensures Paste(dst, src, px, py, blend).At(x, y) ==
      if Covers(src, px, py, x, y) then Over(dst.At(x, y), src.At(x - px, y - py), blend) else dst.At(x, y)
  {
  }

  /** An opaque source pixel replaces the destination pixel under it. */
  lemma PasteOpaqueAt(dst: Image, src: Image, px: int, py: int, blend: Blend, x: int, y: int)
    requires dst.Contains(x, y) && Covers(src, px, py, x, y) && src.At(x - px, y - py).a == 255
    ensures Paste(dst, src, px, py, blend).At(x, y) == src.At(x - px, y - py)
  {
    PasteAt(dst, src, px, py, blend, x, y);
  }

  /** A fully transparent source pixel, or a position the source does not
      reach, leaves the destination pixel as it was. */
  lemma PasteClearAt(dst: Image, src: Image, px: int, py: int, blend: Blend, x: int, y: int)
    requires dst.Contains(x, y)
    requires !Covers(src, px, py, x, y) || src.At(x - px, y - py).a == 0
    ensures Paste(dst, src, px, py, blend).At(x, y) == dst.At(x, y)
  {
    PasteAt(dst, src, px, py, blend, x, y);
  }

  lemma CropAt(im: Image, x0: int, y0: int, w: nat, h: nat, x: int, y: int)
    requires 0 <= x < w && 0 <= y < h
    ensures Crop(im, x0, y0, w, h).At(x, y) == im.At(x0 + x, y0 + y)
  {
  }

  lemma FlipLeftRightAt(im: Image, x: int, y: int)
    requires im.Contains(x, y)
    ensures FlipLeftRight(im).At(x, y) == im.At(im.width - 1 - x, y)
  {
  }

  lemma FlipTopBottomAt(im: Image, x: int, y: int)
    requires im.Contains(x, y)
    ensures FlipTopBottom(im).At(x, y) == im.At(x, im.height - 1 - y)
  {
  }

  lemma HalfTurnAt(im: Image, x: int, y: int)
    requires im.Contains(x, y)
    ensures HalfTurn(im).At(x, y) == im.At(im.width - 1 - x, im.height - 1 - y)
  {
  }

  /** Row y of the clockwise turn is the source's column y read bottom to top. */
  lemma TurnClockwiseAt(im: Image, x: int, y: int)
    requires 0 <= x < im.height && 0 <= y < im.width
    ensures TurnClockwise(im).At(x, y) == im.At(y, im.height - 1 - x)
  {
  }

  /** Row y of the counter-clockwise turn is the source's column width-1-y. */
  lemma TurnCounterClockwiseAt(im: Image, x: int, y: int)
    requires 0 <= x < im.height && 0 <= y < im.width
    ensures TurnCounterClockwise(im).At(x, y) == im.At(im.width - 1 - y, x)
  {
  }

  lemma SettleAt(im: Image, blend: Blend, x: int, y: int)
    requires im.Contains(x, y)
    ensures Settle(im, blend).At(x, y) == Over(Transparent, im.At(x, y), blend)
  {
  }

  /** A crisp image is unchanged by settling onto transparency, whatever the blend. */
  lemma SettleCrisp(im: Image, blend: Blend)
    requires CrispImage(im)
    ensures Same(Settle(im, blend), im)
  {
    forall x, y | im.Contains(x, y)
      ensures Settle(im, blend).At(x, y) == im.At(x, y)
    {
      OverTransparentCrisp(im.At(x, y), blend);
    }
  }

  // ---------------------------------------------------------------------
  // Laws of the transposes
  // ---------------------------------------------------------------------

  lemma FlipLeftRightTwice(im: Image)
    ensures Same(FlipLeftRight(FlipLeftRight(im)), im)
  {
    forall x, y | im.Contains(x, y)
      ensures FlipLeftRight(FlipLeftRight(im)).At(x, y) == im.At(x, y)
    {
      assert FlipLeftRight(FlipLeftRight(im)).At(x, y) == FlipLeftRight(im).At(im.width - 1 - x, y);
    }
  }

  lemma FlipTopBottomTwice(im: Image)
    ensures Same(FlipTopBottom(FlipTopBottom(im)), im)
  {
    forall x, y | im.Contains(x, y)
      ensures FlipTopBottom(FlipTopBottom(im)).At(x, y) == im.At(x, y)
    {
      assert FlipTopBottom(FlipTopBottom(im)).At(x, y) == FlipTopBottom(im).At(x, im.height - 1 - y);
    }
  }

  lemma HalfTurnTwice(im: Image)
    ensures Same(HalfTurn(HalfTurn(im)), im)
  {
    forall x, y | im.Contains(x, y)
      ensures HalfTurn(HalfTurn(im)).At(x, y) == im.At(x, y)
    {
      assert HalfTurn(HalfTurn(im)).At(x, y) == HalfTurn(im).At(im.width - 1 - x, im.height - 1 - y);
    }
  }

  /** A counter-clockwise quarter turn undoes a clockwise one, and conversely. */
  lemma TurnsCancel(im: Image)
    ensures Same(TurnCounterClockwise(TurnClockwise(im)), im)
    ensures Same(TurnClockwise(TurnCounterClockwise(im)), im)
  {
    forall x, y | im.Contains(x, y)
      ensures TurnCounterClockwise(TurnClockwise(im)).At(x, y) == im.At(x, y)
    {
      assert TurnCounterClockwise(TurnClockwise(im)).At(x, y) == TurnClockwise(im).At(im.height - 1 - y, x);
    }
    forall x, y | im.Contains(x, y)
      ensures TurnClockwise(TurnCounterClockwise(im)).At(x, y) == im.At(x, y)
    {
      assert TurnClockwise(TurnCounterClockwise(im)).At(x, y) == TurnCounterClockwise(im).At(y, im.width - 1 - x);
    }
  }

  /** Two clockwise quarter turns make a half turn. */
  lemma TwoClockwiseTurns(im: Image)
    ensures Same(TurnClockwise(TurnClockwise(im)), HalfTurn(im))
  {
    forall x, y | im.Contains(x, y)
      ensures TurnClockwise(TurnClockwise(im)).At(x, y) == HalfTurn(im).At(x, y)
    {
      assert TurnClockwise(TurnClockwise(im)).At(x, y) == TurnClockwise(im).At(y, im.width - 1 - x);
    }
  }

  /** Quarter turns move pixels without changing them, so crispness survives. */
  lemma TurnsKeepCrisp(im: Image)
    requires CrispImage(im)
    ensures CrispImage(TurnClockwise(im)) && CrispImage(TurnCounterClockwise(im))
  {
    forall x, y | TurnClockwise(im).Contains(x, y)
      ensures Crisp(TurnClockwise(im).At(x, y)) && Crisp(TurnCounterClockwise(im).At(x, y))
    {
      assert TurnClockwise(im).At(x, y) == im.At(y, im.height - 1 - x);
      assert TurnCounterClockwise(im).At(x, y) == im.At(im.width - 1 - y, x);
    }
  }

  /** Pictures that are the same stay the same under every transpose. */
  lemma SameTransposes(a: Image, b: Image)
    requires Same(a, b)
    ensures Same(FlipLeftRight(a), FlipLeftRight(b)) && Same(FlipTopBottom(a), FlipTopBottom(b))
    ensures Same(HalfTurn(a), HalfTurn(b))
    ensures Same(TurnClockwise(a), TurnClockwise(b)) && Same(TurnCounterClockwise(a), TurnCounterClockwise(b))
  {
    SameEverywhere(a, b);
  }
}
