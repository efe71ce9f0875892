/** The content hash that keys the sprite index (`sha256_java_argb` in
    from_json_to_frame.py): SHA-256 over the image's pixels as A, R, G, B
    bytes, row by row, left to right. */
module ArgbHash {
  import opened Imaging

  /** A hexadecimal digest as produced by `hashlib.sha256(...).hexdigest()`.
      The digest function itself is a parameter of the model. */
  type Sha256 = seq<byte> -> string

  /** One pixel as the four bytes A, R, G, B. */
  function PixelBytes(p: Pixel): (bs: seq<byte>)
    ensures |bs| == 4
  {
    [p.a, p.r, p.g, p.b]
  }

  /** The first `n` pixels of row `y` in ARGB order. */
  function RowBytes(im: Image, y: int, n: nat): seq<byte>
  {
    if n == 0 then [] else RowBytes(im, y, n - 1) + PixelBytes(im.At(n - 1, y))
  }

  /** The first `k` rows in ARGB order. */
  function RowsBytes(im: Image, k: nat): seq<byte>
  {
    if k == 0 then [] else RowsBytes(im, k - 1) + RowBytes(im, k - 1, im.width)
  }

  /** `rgba.tobytes("raw", "ARGB")`: the whole image in ARGB order, four
      bytes for every pixel of every row. */
  function RawArgb(im: Image): (bs: seq<byte>)
    ensures |bs| == RowOffset(im.width, im.height)
  {
    RowsBytesLength(im, im.height);
    RowsBytes(im, im.height)
  }

  /** Each row adds four bytes per pixel. */
  lemma {:induction false} RowsBytesLength(im: Image, k: nat)
    ensures |RowsBytes(im, k)| == RowOffset(im.width, k)
  {
    if k > 0 {
      RowsBytesLength(im, k - 1);
      RowBytesLength(im, k - 1, im.width);
    }
  }

  lemma {:induction false} RowBytesLength(im: Image, y: int, n: nat)
    ensures |RowBytes(im, y, n)| == 4 * n
  {
    if n > 0 {
      RowBytesLength(im, y, n - 1);
    }
  }

  /** `sha256_java_argb(img)` for an image already in RGBA mode. */
  function ContentHash(im: Image, sha256: Sha256): string {
    sha256(RawArgb(im))
  }

  /** How many bytes the first `y` rows of a `w`-pixel-wide image take. */
  function RowOffset(w: nat, y: nat): nat {
    if y == 0 then 0 else RowOffset(w, y - 1) + 4 * w
  }

  /** Where the bytes of pixel (x, y) start in an ARGB buffer of width `w`. */
  function ByteOffset(w: nat, x: nat, y: nat): nat {
    RowOffset(w, y) + 4 * x
  }

  // ---------------------------------------------------------------------
  // Layout of the byte stream
  // ---------------------------------------------------------------------

  /** Row bytes hold pixel x of the row at offset 4x. */
  lemma {:induction false} RowBytesLayout(im: Image, y: int, n: nat)
    ensures |RowBytes(im, y, n)| == 4 * n
    ensures forall x, k :: 0 <= x < n && 0 <= k < 4 ==>
      RowBytes(im, y, n)[4 * x + k] == PixelBytes(im.At(x, y))[k]
  {
    if n > 0 {
      RowBytesLayout(im, y, n - 1);
      var prev, last := RowBytes(im, y, n - 1), PixelBytes(im.At(n - 1, y));
      assert RowBytes(im, y, n) == prev + last;
      forall x, k | 0 <= x < n && 0 <= k < 4
        ensures RowBytes(im, y, n)[4 * x + k] == PixelBytes(im.At(x, y))[k]
      {
        if x < n - 1 {
          assert 4 * x + k < |prev|;
        } else {
          assert 4 * x + k == |prev| + k;
        }
      }
    }
  }

  /** Row `y` starts at byte 4 * y * w, so pixel (x, y) starts at 4 * (y * w + x). */
  lemma {:induction false} RowOffsetIsProduct(w: nat, y: nat)
    ensures RowOffset(w, y) == 4 * (y * w)
    ensures forall x: nat :: ByteOffset(w, x, y) == 4 * (y * w + x)
  {
    if y > 0 {
      RowOffsetIsProduct(w, y - 1);
      assert (y - 1) * w + w == y * w;
    }
  }

  /** `bs` holds byte `j` of pixel (x, y) of `im` where the ARGB layout puts it. */
  predicate HoldsAt(bs: seq<byte>, im: Image, x: nat, y: nat, j: nat)
    requires j < 4
  {
    ByteOffset(im.width, x, y) + j < |bs| &&
    bs[ByteOffset(im.width, x, y) + j] == PixelBytes(im.At(x, y))[j]
  }

  /** One step of `RowsBytesLayout`: appending row `k - 1` keeps every
      earlier pixel in place and puts the new row's pixels after them. */
  lemma RowsBytesStepAt(im: Image, k: nat, x: nat, y: nat, j: nat)
    requires 0 < k && x < im.width && y < k && j < 4
    requires |RowsBytes(im, k - 1)| == RowOffset(im.width, k - 1)
    requires y < k - 1 ==> HoldsAt(RowsBytes(im, k - 1), im, x, y, j)
    requires |RowBytes(im, k - 1, im.width)| == 4 * im.width
    requires RowBytes(im, k - 1, im.width)[4 * x + j] == PixelBytes(im.At(x, k - 1))[j]
    ensures HoldsAt(RowsBytes(im, k), im, x, y, j)
  {
    var w := im.width;
    var prev, row := RowsBytes(im, k - 1), RowBytes(im, k - 1, w);
    var i := ByteOffset(w, x, y);
    assert RowsBytes(im, k) == prev + row;
    if y < k - 1 {
      assert (prev + row)[i + j] == prev[i + j];
    } else {
      assert i + j == |prev| + (4 * x + j);
      assert (prev + row)[i + j] == row[4 * x + j];
    }
  }

  /** The first `k` rows hold pixel (x, y) at `ByteOffset(w, x, y)`. */
  lemma {:induction false} RowsBytesLayout(im: Image, k: nat)
    ensures |RowsBytes(im, k)| == RowOffset(im.width, k)
    ensures forall x: nat, y: nat, j: nat :: x < im.width && y < k && j < 4 ==>
      HoldsAt(RowsBytes(im, k), im, x, y, j)
  {
    if k > 0 {
      RowsBytesLayout(im, k - 1);
      RowBytesLayout(im, k - 1, im.width);
      forall x: nat, y: nat, j: nat | x < im.width && y < k && j < 4
        ensures HoldsAt(RowsBytes(im, k), im, x, y, j)
      {
        RowsBytesStepAt(im, k, x, y, j);
      }
    }
  }

  /** The ARGB stream is 4 * w * h bytes, pixel (x, y) at offset 4 * (y * w + x). */
  lemma RawArgbLayout(im: Image)
    ensures |RawArgb(im)| == RowOffset(im.width, im.height)
    ensures forall x: nat, y: nat, j: nat :: x < im.width && y < im.height && j < 4 ==>
      HoldsAt(RawArgb(im), im, x, y, j)
  {
    RowsBytesLayout(im, im.height);
  }

  // ---------------------------------------------------------------------
  // Decoding: the stream determines the picture
  // ---------------------------------------------------------------------

  /** The pixel whose ARGB bytes start at `i`; transparent past the end. */
  function PixelAt(bs: seq<byte>, i: int): (p: Pixel)
    ensures 0 <= i && i + 4 <= |bs| ==> PixelBytes(p) == bs[i..i + 4]
  {
    if 0 <= i && i + 4 <= |bs| then Pixel(bs[i + 1], bs[i + 2], bs[i + 3], bs[i]) else Transparent
  }

  /** A `w` x `h` image read back from an ARGB stream. */
  function DecodeArgb(bs: seq<byte>, w: nat, h: nat): (im: Image)
    ensures im.width == w && im.height == h
  {
    Build(w, h, (x, y) => if x < 0 || y < 0 then Transparent else PixelAt(bs, ByteOffset(w, x, y)))
  }

  /** Decoding the ARGB stream of an image gives back the same picture. */
  lemma DecodeRawArgb(im: Image)
    ensures Same(DecodeArgb(RawArgb(im), im.width, im.height), im)
  {
    var raw := RawArgb(im);
    RawArgbLayout(im);
    forall x, y | 0 <= x < im.width && 0 <= y < im.height
      ensures DecodeArgb(raw, im.width, im.height).At(x, y) == im.At(x, y)
    {
      assert HoldsAt(raw, im, x, y, 0) && HoldsAt(raw, im, x, y, 1);
      assert HoldsAt(raw, im, x, y, 2) && HoldsAt(raw, im, x, y, 3);
    }
  }

  /** Two images of one size with the same ARGB stream are the same picture:
      the stream, and so the hash input, loses nothing. */
  lemma RawArgbInjective(a: Image, b: Image)
    requires a.width == b.width && a.height == b.height
    requires RawArgb(a) == RawArgb(b)
    ensures Same(a, b)
  {
    DecodeRawArgb(a);
    DecodeRawArgb(b);
    SameSymmetric(DecodeArgb(RawArgb(b), b.width, b.height), b);
    SameTransitive(a, DecodeArgb(RawArgb(a), a.width, a.height), b);
  }

  lemma {:induction false} SameRowBytes(a: Image, b: Image, y: int, n: nat)
    requires Same(a, b)
    ensures RowBytes(a, y, n) == RowBytes(b, y, n)
  {
    if n > 0 {
      SameRowBytes(a, b, y, n - 1);
      SameEverywhere(a, b);
    }
  }

  lemma {:induction false} SameRowsBytes(a: Image, b: Image, k: nat)
    requires Same(a, b)
    ensures RowsBytes(a, k) == RowsBytes(b, k)
  {
    if k > 0 {
      SameRowsBytes(a, b, k - 1);
      SameRowBytes(a, b, k - 1, a.width);
    }
  }

  /** The hash depends only on the picture, so the same picture always finds
      the same index entry. */
  lemma SamePictureSameHash(a: Image, b: Image, sha256: Sha256)
    requires Same(a, b)
    ensures RawArgb(a) == RawArgb(b)
    ensures ContentHash(a, sha256) == ContentHash(b, sha256)
  {
    SameRowsBytes(a, b, a.height);
  }

  // ---------------------------------------------------------------------
  // The fallback path
  // ---------------------------------------------------------------------

  /** The `except` branch: walk `getdata()` row by row and append each pixel
      as (a, r, g, b). It yields exactly the bytes `tobytes` would. */
  method FallbackArgb(im: Image) returns (raw: seq<byte>)
    ensures raw == RawArgb(im)
  {
    raw := [];
    var y := 0;
    while y < im.height
      invariant 0 <= y <= im.height
      invariant raw == RowsBytes(im, y)
    {
      var x := 0;
      while x < im.width
        invariant 0 <= x <= im.width
        invariant raw == RowsBytes(im, y) + RowBytes(im, y, x)
      {
        var p := im.At(x, y);
        raw := raw + [p.a, p.r, p.g, p.b];
        x := x + 1;
      }
      y := y + 1;
    }
  }
}
