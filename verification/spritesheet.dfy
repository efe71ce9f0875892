/** The single-row atlas of from_json_to_spritesheet.py (`build_spritesheet`):
    every trimmed frame gets a cell of the largest frame's size plus padding,
    cells run left to right in input order, and each frame is centred in its
    cell. */
module Spritesheet {
  import opened Wrappers
  import opened Imaging

  /** `CELL_PADDING`, the default margin around every frame. */
  const CellPadding: nat := 10

  function MaxWidth(frames: seq<Image>): (m: nat)
    requires |frames| > 0
    ensures forall i :: 0 <= i < |frames| ==> frames[i].width <= m
    ensures exists i :: 0 <= i < |frames| && frames[i].width == m
  {
    if |frames| == 1 then frames[0].width
    else
      var rest := MaxWidth(frames[1..]);
      assert forall i :: 1 <= i < |frames| ==> frames[i] == frames[1..][i - 1];
      if frames[0].width < rest then rest else frames[0].width
  }

  function MaxHeight(frames: seq<Image>): (m: nat)
    requires |frames| > 0
    ensures forall i :: 0 <= i < |frames| ==> frames[i].height <= m
    ensures exists i :: 0 <= i < |frames| && frames[i].height == m
  {
    if |frames| == 1 then frames[0].height
    else
      var rest := MaxHeight(frames[1..]);
      assert forall i :: 1 <= i < |frames| ==> frames[i] == frames[1..][i - 1];
      if frames[0].height < rest then rest else frames[0].height
  }

  /** `cell_width` and `cell_height` */
  function CellWidth(frames: seq<Image>, padding: nat): nat
    requires |frames| > 0
  {
    MaxWidth(frames) + padding * 2
  }

  function CellHeight(frames: seq<Image>, padding: nat): nat
    requires |frames| > 0
  {
    MaxHeight(frames) + padding * 2
  }

  /** `idx * cell_width`, the left edge of cell `idx`, counted cell by cell. */
  function CellOrigin(cellWidth: nat, idx: nat): nat {
    if idx == 0 then 0 else CellOrigin(cellWidth, idx - 1) + cellWidth
  }

  /** The sheet is `cell_width * len(frames)` by `cell_height`. */
  function SheetWidth(frames: seq<Image>, padding: nat): nat
    requires |frames| > 0
  {
    CellOrigin(CellWidth(frames, padding), |frames|)
  }

  /** `cell_origin_x + offset_x` for frame `idx`; the floor division acts on
      a non-negative number, since no frame is wider than the widest. */
  function FrameX(frames: seq<Image>, padding: nat, idx: nat): (x: int)
    requires idx < |frames|
    ensures CellOrigin(CellWidth(frames, padding), idx) + padding <= x
    ensures x + frames[idx].width <= CellOrigin(CellWidth(frames, padding), idx) + CellWidth(frames, padding) - padding
  {
    CellOrigin(CellWidth(frames, padding), idx) +
      padding + (CellWidth(frames, padding) - 2 * padding - frames[idx].width) / 2
  }

  /** `offset_y` for frame `idx` */
  function FrameY(frames: seq<Image>, padding: nat, idx: nat): (y: int)
    requires idx < |frames|
    ensures padding <= y && y + frames[idx].height <= CellHeight(frames, padding) - padding
  {
    padding + (CellHeight(frames, padding) - 2 * padding - frames[idx].height) / 2
  }

  /** The sheet after pasting the first `k` frames onto the transparent canvas. */
  function Sheet(frames: seq<Image>, padding: nat, blend: Blend, k: nat): (im: Image)
    requires 0 < |frames| && k <= |frames|
    ensures im.width == SheetWidth(frames, padding) && im.height == CellHeight(frames, padding)
  {
    if k == 0 then Blank(SheetWidth(frames, padding), CellHeight(frames, padding))
    else Paste(Sheet(frames, padding, blend, k - 1), frames[k - 1],
               FrameX(frames, padding, k - 1), FrameY(frames, padding, k - 1), blend)
  }

  /** `build_spritesheet(frames, path, cell_padding=padding)`: nothing at all
      for an empty list, otherwise the finished sheet (saving it is I/O). */
  function BuildSpritesheet(frames: seq<Image>, padding: nat, blend: Blend): (r: Option<Image>)
    ensures r.None? <==> |frames| == 0
    ensures r.Some? ==> r.value.height == MaxHeight(frames) + 2 * padding
  {
    if |frames| == 0 then None else Some(Sheet(frames, padding, blend, |frames|))
  }

  /** `build_spritesheet(frames, path)` with the default `cell_padding`: a
      margin of `CellPadding` on every side of the tallest frame. */
  function BuildDefaultSpritesheet(frames: seq<Image>, blend: Blend): (r: Option<Image>)
    ensures r.None? <==> |frames| == 0
    ensures r.Some? ==> r.value.height == MaxHeight(frames) + 20
  {
    BuildSpritesheet(frames, CellPadding, blend)
  }

  // ---------------------------------------------------------------------
  // Geometry
  // ---------------------------------------------------------------------

  /** Cell `idx` starts at `idx * cell_width`. */
  lemma {:induction false} CellOriginIsProduct(cellWidth: nat, idx: nat)
    ensures CellOrigin(cellWidth, idx) == idx * cellWidth
  {
    if idx > 0 {
      CellOriginIsProduct(cellWidth, idx - 1);
      assert (idx - 1) * cellWidth + cellWidth == idx * cellWidth;
    }
  }

  /** Cells follow one another without gaps or overlap. */
  lemma {:induction false} CellsApart(cellWidth: nat, i: nat, j: nat)
    requires i < j
    ensures CellOrigin(cellWidth, i) + cellWidth <= CellOrigin(cellWidth, j)
  {
    if i < j - 1 {
      CellsApart(cellWidth, i, j - 1);
    }
  }

  /** Every frame lies inside the padded interior of its own cell, and so
      inside the sheet. */
  lemma InsideCell(frames: seq<Image>, padding: nat, idx: nat)
    requires idx < |frames|
    ensures var origin := CellOrigin(CellWidth(frames, padding), idx);
            origin + padding <= FrameX(frames, padding, idx) &&
            FrameX(frames, padding, idx) + frames[idx].width <= origin + CellWidth(frames, padding) - padding
    ensures padding <= FrameY(frames, padding, idx) &&
            FrameY(frames, padding, idx) + frames[idx].height <= CellHeight(frames, padding) - padding
    ensures FrameX(frames, padding, idx) + frames[idx].width <= SheetWidth(frames, padding)
  {
    var cw := CellWidth(frames, padding);
    if idx + 1 < |frames| {
      CellsApart(cw, idx, |frames|);
    }
  }

  /** A frame's left and right margins inside the padded interior differ by
      at most one pixel, and likewise its top and bottom margins. */
  lemma Centred(frames: seq<Image>, padding: nat, idx: nat)
    requires idx < |frames|
    ensures var origin := CellOrigin(CellWidth(frames, padding), idx);
            var left := FrameX(frames, padding, idx) - (origin + padding);
            var right := (origin + CellWidth(frames, padding) - padding) - (FrameX(frames, padding, idx) + frames[idx].width);
            0 <= right - left <= 1
    ensures var top := FrameY(frames, padding, idx) - padding;
            var bottom := (CellHeight(frames, padding) - padding) - (FrameY(frames, padding, idx) + frames[idx].height);
            0 <= bottom - top <= 1
  {
  }

  /** Frames never overlap: an earlier frame ends left of where a later one starts. */
  lemma NoOverlap(frames: seq<Image>, padding: nat, i: nat, j: nat)
    requires i < j < |frames|
    ensures FrameX(frames, padding, i) + frames[i].width <= FrameX(frames, padding, j)
  {
    InsideCell(frames, padding, i);
    InsideCell(frames, padding, j);
    CellsApart(CellWidth(frames, padding), i, j);
  }

  /** Padding 1 around a single 4 x 4 frame gives a 6 x 6 sheet with the frame at (1, 1). */
  lemma WorkedExample(frame: Image, blend: Blend)
    requires frame.width == 4 && frame.height == 4
    ensures BuildSpritesheet([frame], 1, blend).Some?
    ensures BuildSpritesheet([frame], 1, blend).value.width == 6
    ensures BuildSpritesheet([frame], 1, blend).value.height == 6
    ensures FrameX([frame], 1, 0) == 1 && FrameY([frame], 1, 0) == 1
  {
    assert CellOrigin(6, 1) == 6;
  }

  /** The sheet is one cell per frame wide and one cell high, each cell the
      largest frame's size plus the padding on both sides. */
  lemma SheetSize(frames: seq<Image>, padding: nat, blend: Blend)
    requires |frames| > 0
    ensures BuildSpritesheet(frames, padding, blend).value.width == CellWidth(frames, padding) * |frames|
    ensures BuildSpritesheet(frames, padding, blend).value.height == CellHeight(frames, padding)
    ensures CellWidth(frames, padding) == MaxWidth(frames) + 2 * padding
    ensures CellHeight(frames, padding) == MaxHeight(frames) + 2 * padding
  {
    CellOriginIsProduct(CellWidth(frames, padding), |frames|);
    var sheet := Sheet(frames, padding, blend, |frames|);
    assert BuildSpritesheet(frames, padding, blend) == Some(sheet);
  }

  // ---------------------------------------------------------------------
  // Contents
  // ---------------------------------------------------------------------

  /** Frame `j` covers sheet position (x, y). */
  predicate FrameCovers(frames: seq<Image>, padding: nat, j: nat, x: int, y: int)
    requires j < |frames|
  {
    Covers(frames[j], FrameX(frames, padding, j), FrameY(frames, padding, j), x, y)
  }

  /** A position no pasted frame covers is still transparent. */
  lemma {:induction false} SheetUntouched(frames: seq<Image>, padding: nat, blend: Blend, k: nat, x: int, y: int)
    requires 0 < |frames| && k <= |frames|
    requires forall j :: 0 <= j < k ==> !FrameCovers(frames, padding, j, x, y)
    ensures Sheet(frames, padding, blend, k).At(x, y) == Transparent
  {
    if k > 0 && Sheet(frames, padding, blend, k).Contains(x, y) {
      var before := Sheet(frames, padding, blend, k - 1);
      SheetUntouched(frames, padding, blend, k - 1, x, y);
      assert !FrameCovers(frames, padding, k - 1, x, y);
      PasteClearAt(before, frames[k - 1], FrameX(frames, padding, k - 1), FrameY(frames, padding, k - 1), blend, x, y);
    }
  }

  /** Other frames never reach into frame `i`'s rectangle. */
  lemma OnlyOneCovers(frames: seq<Image>, padding: nat, i: nat, x: nat, y: nat, j: nat)
    requires i < |frames| && j < |frames| && i != j
    requires x < frames[i].width && y < frames[i].height
    ensures !FrameCovers(frames, padding, j, FrameX(frames, padding, i) + x, FrameY(frames, padding, i) + y)
  {
    if i < j {
      NoOverlap(frames, padding, i, j);
    } else {
      NoOverlap(frames, padding, j, i);
    }
  }

  /** Step `k` of the paste loop places frame `k - 1`. */
  lemma SheetStep(frames: seq<Image>, padding: nat, blend: Blend, i: nat)
    requires i < |frames|
    ensures Sheet(frames, padding, blend, i + 1) ==
            Paste(Sheet(frames, padding, blend, i), frames[i], FrameX(frames, padding, i), FrameY(frames, padding, i), blend)
  {
  }

  /** Every pixel of frame `i` lands on the sheet. */
  lemma FrameOnSheet(frames: seq<Image>, padding: nat, blend: Blend, k: nat, i: nat, x: nat, y: nat)
    requires i < |frames| && k <= |frames| && x < frames[i].width && y < frames[i].height
    ensures Sheet(frames, padding, blend, k).Contains(FrameX(frames, padding, i) + x, FrameY(frames, padding, i) + y)
  {
    InsideCell(frames, padding, i);
  }

  /** Before frame `i` is pasted, its rectangle is still transparent. */
  lemma ClearBeforeFrame(frames: seq<Image>, padding: nat, blend: Blend, i: nat, x: nat, y: nat)
    requires i < |frames| && x < frames[i].width && y < frames[i].height
    ensures Sheet(frames, padding, blend, i).At(FrameX(frames, padding, i) + x, FrameY(frames, padding, i) + y) == Transparent
  {
    var sx, sy := FrameX(frames, padding, i) + x, FrameY(frames, padding, i) + y;
    NoEarlierCovers(frames, padding, i, x, y, sx, sy);
    SheetUntouched(frames, padding, blend, i, sx, sy);
  }

  /** No frame before frame `i` reaches into frame `i`'s rectangle. */
  lemma NoEarlierCovers(frames: seq<Image>, padding: nat, i: nat, x: nat, y: nat, sx: int, sy: int)
    requires i < |frames| && x < frames[i].width && y < frames[i].height
    requires sx == FrameX(frames, padding, i) + x && sy == FrameY(frames, padding, i) + y
    ensures forall j :: 0 <= j < i ==> !FrameCovers(frames, padding, j, sx, sy)
  {
    forall j | 0 <= j < i
      ensures !FrameCovers(frames, padding, j, sx, sy)
    {
      OnlyOneCovers(frames, padding, i, x, y, j);
    }
  }

  /** Pasting frame `i` writes its pixels onto a still transparent area. */
  lemma FramePasted(frames: seq<Image>, padding: nat, blend: Blend, i: nat, x: nat, y: nat)
    requires i < |frames| && x < frames[i].width && y < frames[i].height
    ensures Sheet(frames, padding, blend, i + 1).At(FrameX(frames, padding, i) + x, FrameY(frames, padding, i) + y) ==
            Over(Transparent, frames[i].At(x, y), blend)
  {
    var px, py := FrameX(frames, padding, i), FrameY(frames, padding, i);
    var before := Sheet(frames, padding, blend, i);
    FrameOnSheet(frames, padding, blend, i, i, x, y);
    ClearBeforeFrame(frames, padding, blend, i, x, y);
    SheetStep(frames, padding, blend, i);
  }

  /** Pasting a later frame leaves frame `i`'s pixels alone. */
  lemma LaterFrameKeeps(frames: seq<Image>, padding: nat, blend: Blend, k: nat, i: nat, x: nat, y: nat)
    requires i < k - 1 && k <= |frames| && x < frames[i].width && y < frames[i].height
    ensures Sheet(frames, padding, blend, k).At(FrameX(frames, padding, i) + x, FrameY(frames, padding, i) + y) ==
            Sheet(frames, padding, blend, k - 1).At(FrameX(frames, padding, i) + x, FrameY(frames, padding, i) + y)
  {
    var sx, sy := FrameX(frames, padding, i) + x, FrameY(frames, padding, i) + y;
    var before := Sheet(frames, padding, blend, k - 1);
    FrameOnSheet(frames, padding, blend, k - 1, i, x, y);
    OnlyOneCovers(frames, padding, i, x, y, k - 1);
    PasteClearAt(before, frames[k - 1], FrameX(frames, padding, k - 1), FrameY(frames, padding, k - 1), blend, sx, sy);
  }

  /** Each frame appears in its place on the sheet, as pasted onto transparency. */
  lemma {:induction false} SheetShowsFrame(frames: seq<Image>, padding: nat, blend: Blend, k: nat,
                                           i: nat, x: nat, y: nat)
    requires 0 < |frames| && i < k <= |frames|
    requires x < frames[i].width && y < frames[i].height
    ensures Sheet(frames, padding, blend, k).At(FrameX(frames, padding, i) + x, FrameY(frames, padding, i) + y) ==
            Over(Transparent, frames[i].At(x, y), blend)
  {
    if k - 1 == i {
      FramePasted(frames, padding, blend, i, x, y);
    } else {
      SheetShowsFrame(frames, padding, blend, k - 1, i, x, y);
      LaterFrameKeeps(frames, padding, blend, k, i, x, y);
    }
  }

  /** The finished sheet: each frame in its cell; crisp frames come out exactly. */
  lemma SheetContents(frames: seq<Image>, padding: nat, blend: Blend, i: nat, x: nat, y: nat)
    requires i < |frames| && x < frames[i].width && y < frames[i].height
    ensures BuildSpritesheet(frames, padding, blend).value.At(FrameX(frames, padding, i) + x, FrameY(frames, padding, i) + y) ==
            Over(Transparent, frames[i].At(x, y), blend)
    ensures Crisp(frames[i].At(x, y)) ==>
            BuildSpritesheet(frames, padding, blend).value.At(FrameX(frames, padding, i) + x, FrameY(frames, padding, i) + y) ==
            frames[i].At(x, y)
  {
    SheetShowsFrame(frames, padding, blend, |frames|, i, x, y);
    if Crisp(frames[i].At(x, y)) {
      OverTransparentCrisp(frames[i].At(x, y), blend);
    }
  }

  /** Everything outside the frames' rectangles stays transparent. */
  lemma SheetBackground(frames: seq<Image>, padding: nat, blend: Blend, x: int, y: int)
    requires |frames| > 0
    requires forall j :: 0 <= j < |frames| ==> !FrameCovers(frames, padding, j, x, y)
    ensures BuildSpritesheet(frames, padding, blend).value.At(x, y) == Transparent
  {
    SheetUntouched(frames, padding, blend, |frames|, x, y);
  }
}
