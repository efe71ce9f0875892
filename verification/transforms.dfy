/** The transform labels a part may carry and the pixel operation each one
    selects (`apply_transform` in from_json_to_frame.py). */
module Transforms {
  import opened Text
  import opened Imaging

  /** The operation a label selects, after the label has been upper-cased. */
  datatype Op =
    | Keep                               // NONE, MIRROR_ROTATE_90, MIRROR_ROTATE_270, anything unrecognised
    | MirrorLeftRight                    // FLIP_H, MIRROR
    | MirrorTopBottom                    // FLIP_V
    | Rotate180                          // ROTATE_180
    | PaddedQuarterTurn(clockwise: bool) // ROTATE_90 (clockwise); ROTATE_270, MIRROR_ROTATE_180

  /** Padding on each side of the square scratch canvas of a quarter turn. */
  const TurnPadding: nat := 2

  /** The labels that select an operation other than `Keep`. */
  const MovingLabels: set<string> :=
    {"FLIP_H", "MIRROR", "FLIP_V", "ROTATE_180", "MIRROR_ROTATE_180", "ROTATE_90", "ROTATE_270"}

  /** `(name or "NONE").upper()` */
  function Normalise(name: string): string {
    Upper(if name == "" then "NONE" else name)
  }

  function ParseLabel(name: string): Op {
    var t := Normalise(name);
    if t == "NONE" then Keep
    else if t == "FLIP_H" || t == "MIRROR" then MirrorLeftRight
    else if t == "FLIP_V" then MirrorTopBottom
    else if t == "ROTATE_180" then Rotate180
    else if t == "MIRROR_ROTATE_180" then PaddedQuarterTurn(false)
    else if t == "ROTATE_90" then PaddedQuarterTurn(true)
    else if t == "ROTATE_270" then PaddedQuarterTurn(false)
    else Keep
  }

  function Max(a: nat, b: nat): nat { if a < b then b else a }

  /** Side of the square scratch canvas for a `w` x `h` crop: max(w, h) + 4. */
  function SideFor(w: nat, h: nat): nat {
    Max(w, h) + 2 * TurnPadding
  }

  function SquareSide(im: Image): nat { SideFor(im.width, im.height) }

  /** Where the source is pasted on the square: ((side - w) / 2, (side - h) / 2).
      The crop box after the transpose starts at (OffsetY, OffsetX). */
  function OffsetX(im: Image): nat { (SquareSide(im) - im.width) / 2 }

  function OffsetY(im: Image): nat { (SquareSide(im) - im.height) / 2 }

  /** How many rows the clockwise padded turn reads below a plain turn: the
      parity of side - h, which is 1 exactly when the crop is wider than tall
      by an odd amount. */
  function ClockwiseShift(w: nat, h: nat): (s: nat)
    ensures s == if w > h then (w - h) % 2 else 0
  {
    (SideFor(w, h) - h) % 2
  }

  /** How many columns the counter-clockwise padded turn reads right of a
      plain turn: 1 exactly when the crop is taller than wide by an odd amount. */
  function CounterClockwiseShift(w: nat, h: nat): (s: nat)
    ensures s == if h > w then (h - w) % 2 else 0
  {
    (SideFor(w, h) - w) % 2
  }

  /** The source pasted, with its own alpha as the mask, onto a transparent square. */
  function PaddedSquare(im: Image, blend: Blend): (sq: Image)
    ensures sq.width == SquareSide(im) && sq.height == SquareSide(im)
  {
    Paste(Blank(SquareSide(im), SquareSide(im)), im, OffsetX(im), OffsetY(im), blend)
  }

  /** The quarter turn as written: transpose the padded square and crop an
      h x w box at ((side - h) / 2, (side - w) / 2). */
  function PaddedTurn(im: Image, clockwise: bool, blend: Blend): (r: Image)
    ensures r.width == im.height && r.height == im.width
  {
    Crop(if clockwise then TurnClockwise(PaddedSquare(im, blend)) else TurnCounterClockwise(PaddedSquare(im, blend)),
         OffsetY(im), OffsetX(im), im.height, im.width)
  }

  /** `apply_transform(im, name)` */
  function ApplyTransform(im: Image, name: string, blend: Blend): (r: Image)
    ensures ParseLabel(name).PaddedQuarterTurn? ==> r.width == im.height && r.height == im.width
    ensures !ParseLabel(name).PaddedQuarterTurn? ==> r.width == im.width && r.height == im.height
  {
    match ParseLabel(name)
    case Keep => im
    case MirrorLeftRight => FlipLeftRight(im)
    case MirrorTopBottom => FlipTopBottom(im)
    case Rotate180 => HalfTurn(im)
    case PaddedQuarterTurn(cw) => PaddedTurn(im, cw, blend)
  }

  // ---------------------------------------------------------------------
  // Where a padded quarter turn takes each pixel from
  // ---------------------------------------------------------------------

  /** The source pixel at column `x`, row `y` after a masked paste onto
      transparency; transparent outside the source. */
  function SettledAt(im: Image, x: int, y: int, blend: Blend): Pixel {
    if im.Contains(x, y) then Over(Transparent, im.At(x, y), blend) else Transparent
  }

  /** The padded square holds the settled source pixel (c, r) at
      (OffsetX + c, OffsetY + r). */
  lemma PaddedSquareAt(im: Image, blend: Blend, c: int, r: int)
    requires 0 <= OffsetX(im) + c < SquareSide(im) && 0 <= OffsetY(im) + r < SquareSide(im)
    ensures PaddedSquare(im, blend).At(OffsetX(im) + c, OffsetY(im) + r) == SettledAt(im, c, r, blend)
  {
    var X, Y := OffsetX(im) + c, OffsetY(im) + r;
    var side := SquareSide(im);
    PasteAt(Blank(side, side), im, OffsetX(im), OffsetY(im), blend, X, Y);
    assert Covers(im, OffsetX(im), OffsetY(im), X, Y) == im.Contains(c, r);
  }

  /** Pixel (x, y) of an h x w crop at (cx, cy) of a clockwise-turned square. */
  lemma CropClockwiseAt(sq: Image, cx: int, cy: int, h: nat, w: nat, x: int, y: int)
    requires 0 <= x < h && 0 <= y < w
    requires 0 <= cx + x < sq.height && 0 <= cy + y < sq.width
    ensures Crop(TurnClockwise(sq), cx, cy, h, w).At(x, y) == sq.At(cy + y, sq.height - 1 - (cx + x))
  {
    CropAt(TurnClockwise(sq), cx, cy, h, w, x, y);
    TurnClockwiseAt(sq, cx + x, cy + y);
  }

  /** Pixel (x, y) of an h x w crop at (cx, cy) of a counter-clockwise-turned square. */
  lemma CropCounterClockwiseAt(sq: Image, cx: int, cy: int, h: nat, w: nat, x: int, y: int)
    requires 0 <= x < h && 0 <= y < w
    requires 0 <= cx + x < sq.height && 0 <= cy + y < sq.width
    ensures Crop(TurnCounterClockwise(sq), cx, cy, h, w).At(x, y) == sq.At(sq.width - 1 - (cy + y), cx + x)
  {
    CropAt(TurnCounterClockwise(sq), cx, cy, h, w, x, y);
    TurnCounterClockwiseAt(sq, cx + x, cy + y);
  }

  /** Output pixel (x, y) of a clockwise padded turn, read off the padded square. */
  lemma PaddedClockwiseSquareAt(im: Image, blend: Blend, x: int, y: int)
    requires 0 <= x < im.height && 0 <= y < im.width
    ensures PaddedTurn(im, true, blend).At(x, y) ==
      PaddedSquare(im, blend).At(OffsetX(im) + y, SquareSide(im) - 1 - (OffsetY(im) + x))
  {
    CropClockwiseAt(PaddedSquare(im, blend), OffsetY(im), OffsetX(im), im.height, im.width, x, y);
  }

  /** Output pixel (x, y) of a counter-clockwise padded turn, read off the padded square. */
  lemma PaddedCounterClockwiseSquareAt(im: Image, blend: Blend, x: int, y: int)
    requires 0 <= x < im.height && 0 <= y < im.width
    ensures PaddedTurn(im, false, blend).At(x, y) ==
      PaddedSquare(im, blend).At(SquareSide(im) - 1 - (OffsetX(im) + y), OffsetY(im) + x)
  {
    CropCounterClockwiseAt(PaddedSquare(im, blend), OffsetY(im), OffsetX(im), im.height, im.width, x, y);
  }

  /** The source sits on the square with at least the padding free on every side. */
  lemma OffsetBounds(im: Image)
    ensures TurnPadding <= OffsetX(im) && OffsetX(im) + im.width + TurnPadding <= SquareSide(im)
    ensures TurnPadding <= OffsetY(im) && OffsetY(im) + im.height + TurnPadding <= SquareSide(im)
  {
  }

  /** Row `x` of the clockwise-turned square, counted from the bottom, is
      source row `h - 1 + shift - x` of the pasted image. */
  lemma ReflectRow(im: Image, x: int)
    ensures SquareSide(im) - 1 - (OffsetY(im) + x) ==
      OffsetY(im) + (im.height - 1 + ClockwiseShift(im.width, im.height) - x)
  {
  }

  /** Column `y` of the counter-clockwise-turned square, counted from the
      right, is source column `w - 1 + shift - y`. */
  lemma ReflectColumn(im: Image, y: int)
    ensures SquareSide(im) - 1 - (OffsetX(im) + y) ==
      OffsetX(im) + (im.width - 1 + CounterClockwiseShift(im.width, im.height) - y)
  {
  }

  /** Output pixel (x, y) of a clockwise padded turn is the source's column y,
      row h - 1 + shift - x. */
  lemma PaddedClockwiseAt(im: Image, blend: Blend, x: int, y: int)
    requires 0 <= x < im.height && 0 <= y < im.width
    ensures PaddedTurn(im, true, blend).At(x, y) ==
      SettledAt(im, y, im.height - 1 + ClockwiseShift(im.width, im.height) - x, blend)
  {
    ReflectRow(im, x);
    OffsetBounds(im);
    PaddedClockwiseSquareAt(im, blend, x, y);
    PaddedSquareAt(im, blend, y, im.height - 1 + ClockwiseShift(im.width, im.height) - x);
  }

  /** Output pixel (x, y) of a counter-clockwise padded turn is the source's
      column w - 1 + shift - y, row x. */
  lemma PaddedCounterClockwiseAt(im: Image, blend: Blend, x: int, y: int)
    requires 0 <= x < im.height && 0 <= y < im.width
    ensures PaddedTurn(im, false, blend).At(x, y) ==
      SettledAt(im, im.width - 1 + CounterClockwiseShift(im.width, im.height) - y, x, blend)
  {
    ReflectColumn(im, y);
    OffsetBounds(im);
    PaddedCounterClockwiseSquareAt(im, blend, x, y);
    PaddedSquareAt(im, blend, im.width - 1 + CounterClockwiseShift(im.width, im.height) - y, x);
  }

  /** The plain clockwise turn of the settled image, pixel by pixel. */
  lemma ClockwiseSettledAt(im: Image, blend: Blend, x: int, y: int)
    requires 0 <= x < im.height && 0 <= y < im.width
    ensures TurnClockwise(Settle(im, blend)).At(x, y) == SettledAt(im, y, im.height - 1 - x, blend)
  {
    TurnClockwiseAt(Settle(im, blend), x, y);
    SettleAt(im, blend, y, im.height - 1 - x);
  }

  /** The plain counter-clockwise turn of the settled image, pixel by pixel. */
  lemma CounterClockwiseSettledAt(im: Image, blend: Blend, x: int, y: int)
    requires 0 <= x < im.height && 0 <= y < im.width
    ensures TurnCounterClockwise(Settle(im, blend)).At(x, y) == SettledAt(im, im.width - 1 - y, x, blend)
  {
    TurnCounterClockwiseAt(Settle(im, blend), x, y);
    SettleAt(im, blend, im.width - 1 - y, x);
  }

  lemma PaddedClockwisePlainAt(im: Image, blend: Blend, x: int, y: int)
    requires ClockwiseShift(im.width, im.height) == 0
    requires 0 <= x < im.height && 0 <= y < im.width
    ensures PaddedTurn(im, true, blend).At(x, y) == TurnClockwise(Settle(im, blend)).At(x, y)
  {
    PaddedClockwiseAt(im, blend, x, y);
    ClockwiseSettledAt(im, blend, x, y);
  }

  lemma PaddedCounterClockwisePlainAt(im: Image, blend: Blend, x: int, y: int)
    requires CounterClockwiseShift(im.width, im.height) == 0
    requires 0 <= x < im.height && 0 <= y < im.width
    ensures PaddedTurn(im, false, blend).At(x, y) == TurnCounterClockwise(Settle(im, blend)).At(x, y)
  {
    PaddedCounterClockwiseAt(im, blend, x, y);
    CounterClockwiseSettledAt(im, blend, x, y);
  }

  /** When the height is at least the width, or they differ by an even amount,
      the clockwise padded turn is the plain clockwise turn of the settled image. */
  lemma PaddedClockwiseIsPlain(im: Image, blend: Blend)
    requires im.height >= im.width || (im.width - im.height) % 2 == 0
    ensures Same(PaddedTurn(im, true, blend), TurnClockwise(Settle(im, blend)))
  {
    assert ClockwiseShift(im.width, im.height) == 0;
    forall x, y | 0 <= x < im.height && 0 <= y < im.width
      ensures PaddedTurn(im, true, blend).At(x, y) == TurnClockwise(Settle(im, blend)).At(x, y)
    {
      PaddedClockwisePlainAt(im, blend, x, y);
    }
  }

  /** The counter-clockwise counterpart of `PaddedClockwiseIsPlain`. */
  lemma PaddedCounterClockwiseIsPlain(im: Image, blend: Blend)
    requires im.width >= im.height || (im.height - im.width) % 2 == 0
    ensures Same(PaddedTurn(im, false, blend), TurnCounterClockwise(Settle(im, blend)))
  {
    assert CounterClockwiseShift(im.width, im.height) == 0;
    forall x, y | 0 <= x < im.height && 0 <= y < im.width
      ensures PaddedTurn(im, false, blend).At(x, y) == TurnCounterClockwise(Settle(im, blend)).At(x, y)
    {
      PaddedCounterClockwisePlainAt(im, blend, x, y);
    }
  }

  // ---------------------------------------------------------------------
  // Label handling
  // ---------------------------------------------------------------------

  /** A label already in upper case is its own normal form. */
  lemma NormaliseUpperCase(name: string)
    requires name != ""
    requires forall i :: 0 <= i < |name| ==> !IsAsciiLower(name[i])
    ensures Normalise(name) == name
  {
  }

  /** Labels are matched without regard to case, and a missing label reads as NONE. */
  lemma LabelCaseInsensitive(im: Image, name: string, blend: Blend)
    ensures ApplyTransform(im, name, blend) == ApplyTransform(im, Upper(name), blend)
    ensures ApplyTransform(im, "", blend) == im
  {
    UpperIdempotent(name);
    NormaliseUpperCase("NONE");
  }

  /** Any label outside the seven moving ones leaves the crop untouched; this
      includes NONE, MIRROR_ROTATE_90, MIRROR_ROTATE_270 and unknown labels. */
  lemma UnrecognisedLabelKeepsImage(im: Image, name: string, blend: Blend)
    requires Normalise(name) !in MovingLabels
    ensures ApplyTransform(im, name, blend) == im
  {
  }

  /** MIRROR_ROTATE_90 and MIRROR_ROTATE_270, in any letter case, are
      recognised by the quarter-turn branch but select no operation, so they
      return the input. */
  lemma MirrorQuarterTurnsKeepImage(im: Image, name: string, blend: Blend)
    requires Normalise(name) == "MIRROR_ROTATE_90" || Normalise(name) == "MIRROR_ROTATE_270"
    ensures ApplyTransform(im, name, blend) == im
  {
    UnrecognisedLabelKeepsImage(im, name, blend);
  }

  /** FLIP_H and MIRROR are the same left-right mirror. */
  lemma MirrorAliases(im: Image, blend: Blend)
    ensures ApplyTransform(im, "FLIP_H", blend) == FlipLeftRight(im)
    ensures ApplyTransform(im, "MIRROR", blend) == FlipLeftRight(im)
  {
    NormaliseUpperCase("FLIP_H");
    NormaliseUpperCase("MIRROR");
  }

  /** FLIP_H, MIRROR, FLIP_V and ROTATE_180 keep the size, and each applied
      twice gives the crop back. */
  lemma SelfInverseLabels(im: Image, name: string, blend: Blend)
    requires Normalise(name) in {"FLIP_H", "MIRROR", "FLIP_V", "ROTATE_180"}
    ensures Same(ApplyTransform(ApplyTransform(im, name, blend), name, blend), im)
  {
    match ParseLabel(name)
    case MirrorLeftRight => FlipLeftRightTwice(im);
    case MirrorTopBottom => FlipTopBottomTwice(im);
    case Rotate180 => HalfTurnTwice(im);
  }

  /** ROTATE_90 runs the padded clockwise turn; MIRROR_ROTATE_180 runs the same
      padded counter-clockwise turn as ROTATE_270. */
  lemma QuarterTurnLabels(im: Image, blend: Blend)
    ensures ApplyTransform(im, "ROTATE_90", blend) == PaddedTurn(im, true, blend)
    ensures ApplyTransform(im, "MIRROR_ROTATE_180", blend) == PaddedTurn(im, false, blend)
    ensures ApplyTransform(im, "ROTATE_270", blend) == PaddedTurn(im, false, blend)
  {
    NormaliseUpperCase("ROTATE_90");
    NormaliseUpperCase("MIRROR_ROTATE_180");
    NormaliseUpperCase("ROTATE_270");
  }

  lemma SameSettledAt(a: Image, b: Image, x: int, y: int, blend: Blend)
    requires Same(a, b)
    ensures SettledAt(a, x, y, blend) == SettledAt(b, x, y, blend)
  {
  }

  /** What the padded turn computes, pixel by pixel: the turned settled
      source, read `ClockwiseShift` rows (or `CounterClockwiseShift` columns)
      further along. */
  function ShiftedTurn(im: Image, clockwise: bool, blend: Blend): (r: Image)
    ensures r.width == im.height && r.height == im.width
  {
    if clockwise then
      Build(im.height, im.width, (x, y) => SettledAt(im, y, im.height - 1 + ClockwiseShift(im.width, im.height) - x, blend))
    else
      Build(im.height, im.width, (x, y) => SettledAt(im, im.width - 1 + CounterClockwiseShift(im.width, im.height) - y, x, blend))
  }

  /** The paste, transpose and crop of the padded turn amount to `ShiftedTurn`. */
  lemma PaddedTurnIsShifted(im: Image, clockwise: bool, blend: Blend)
    ensures Same(PaddedTurn(im, clockwise, blend), ShiftedTurn(im, clockwise, blend))
  {
    forall x, y | 0 <= x < im.height && 0 <= y < im.width
      ensures PaddedTurn(im, clockwise, blend).At(x, y) == ShiftedTurn(im, clockwise, blend).At(x, y)
    {
      if clockwise {
        PaddedClockwiseAt(im, blend, x, y);
      } else {
        PaddedCounterClockwiseAt(im, blend, x, y);
      }
    }
  }

  lemma SameShiftedTurn(a: Image, b: Image, clockwise: bool, blend: Blend)
    requires Same(a, b)
    ensures Same(ShiftedTurn(a, clockwise, blend), ShiftedTurn(b, clockwise, blend))
  {
    forall x, y | 0 <= x < a.height && 0 <= y < a.width
      ensures ShiftedTurn(a, clockwise, blend).At(x, y) == ShiftedTurn(b, clockwise, blend).At(x, y)
    {
      SameSettledAt(a, b, y, a.height - 1 + ClockwiseShift(a.width, a.height) - x, blend);
      SameSettledAt(a, b, a.width - 1 + CounterClockwiseShift(a.width, a.height) - y, x, blend);
    }
  }

  /** The padded turn depends only on the picture it is given. */
  lemma SamePaddedTurn(a: Image, b: Image, clockwise: bool, blend: Blend)
    requires Same(a, b)
    ensures Same(PaddedTurn(a, clockwise, blend), PaddedTurn(b, clockwise, blend))
  {
    PaddedTurnIsShifted(a, clockwise, blend);
    PaddedTurnIsShifted(b, clockwise, blend);
    SameShiftedTurn(a, b, clockwise, blend);
    SameTransitive(PaddedTurn(a, clockwise, blend), ShiftedTurn(a, clockwise, blend), ShiftedTurn(b, clockwise, blend));
    SameSymmetric(PaddedTurn(b, clockwise, blend), ShiftedTurn(b, clockwise, blend));
    SameTransitive(PaddedTurn(a, clockwise, blend), ShiftedTurn(b, clockwise, blend), PaddedTurn(b, clockwise, blend));
  }

  /** Every label treats the same picture the same way. */
  lemma SameApplyTransform(a: Image, b: Image, name: string, blend: Blend)
    requires Same(a, b)
    ensures Same(ApplyTransform(a, name, blend), ApplyTransform(b, name, blend))
  {
    match ParseLabel(name)
    case Keep =>
    case MirrorLeftRight => SameTransposes(a, b);
    case MirrorTopBottom => SameTransposes(a, b);
    case Rotate180 => SameTransposes(a, b);
    case PaddedQuarterTurn(cw) => SamePaddedTurn(a, b, cw, blend);
  }

  /** ROTATE_90 turns a crisp crop clockwise and ROTATE_270 turns it
      counter-clockwise when width and height have the same parity. */
  lemma QuarterTurnDirections(im: Image, blend: Blend)
    requires CrispImage(im)
    requires (im.width - im.height) % 2 == 0
    ensures Same(ApplyTransform(im, "ROTATE_90", blend), TurnClockwise(im))
    ensures Same(ApplyTransform(im, "ROTATE_270", blend), TurnCounterClockwise(im))
  {
    QuarterTurnLabels(im, blend);
    PaddedClockwiseIsPlain(im, blend);
    PaddedCounterClockwiseIsPlain(im, blend);
    SettleCrisp(im, blend);
    SameTransposes(Settle(im, blend), im);
    SameTransitive(PaddedTurn(im, true, blend), TurnClockwise(Settle(im, blend)), TurnClockwise(im));
    SameTransitive(PaddedTurn(im, false, blend), TurnCounterClockwise(Settle(im, blend)), TurnCounterClockwise(im));
  }

  /** ROTATE_90 followed by ROTATE_270, in either order, gives a crisp crop back
      when width and height have the same parity. */
  lemma QuarterTurnsCancel(im: Image, blend: Blend)
    requires CrispImage(im)
    requires (im.width - im.height) % 2 == 0
    ensures Same(ApplyTransform(ApplyTransform(im, "ROTATE_90", blend), "ROTATE_270", blend), im)
    ensures Same(ApplyTransform(ApplyTransform(im, "ROTATE_270", blend), "ROTATE_90", blend), im)
  {
    var cw, ccw := TurnClockwise(im), TurnCounterClockwise(im);
    QuarterTurnDirections(im, blend);
    TurnsKeepCrisp(im);
    QuarterTurnDirections(cw, blend);
    QuarterTurnDirections(ccw, blend);
    TurnsCancel(im);
    var once := ApplyTransform(im, "ROTATE_90", blend);
    SameApplyTransform(once, cw, "ROTATE_270", blend);
    SameTransitive(ApplyTransform(once, "ROTATE_270", blend), ApplyTransform(cw, "ROTATE_270", blend), TurnCounterClockwise(cw));
    SameTransitive(ApplyTransform(once, "ROTATE_270", blend), TurnCounterClockwise(cw), im);
    var back := ApplyTransform(im, "ROTATE_270", blend);
    SameApplyTransform(back, ccw, "ROTATE_90", blend);
    SameTransitive(ApplyTransform(back, "ROTATE_90", blend), ApplyTransform(ccw, "ROTATE_90", blend), TurnClockwise(ccw));
    SameTransitive(ApplyTransform(back, "ROTATE_90", blend), TurnClockwise(ccw), im);
  }

  /** ROTATE_90 of a picture the same as `t`, for a crisp `t` of matching
      parity, is the same as `t` turned clockwise. */
  lemma ClockwiseOfSame(a: Image, t: Image, blend: Blend)
    requires Same(a, t) && CrispImage(t) && (t.width - t.height) % 2 == 0
    ensures Same(ApplyTransform(a, "ROTATE_90", blend), TurnClockwise(t))
  {
    SameApplyTransform(a, t, "ROTATE_90", blend);
    QuarterTurnDirections(t, blend);
    SameTransitive(ApplyTransform(a, "ROTATE_90", blend), ApplyTransform(t, "ROTATE_90", blend), TurnClockwise(t));
  }

  /** Two ROTATE_90 labels in a row turn the picture half way round. */
  lemma TwoQuarterTurns(im: Image, blend: Blend)
    requires CrispImage(im)
    requires (im.width - im.height) % 2 == 0
    ensures var twice := ApplyTransform(ApplyTransform(im, "ROTATE_90", blend), "ROTATE_90", blend);
      Same(twice, TurnClockwise(TurnClockwise(im))) && Same(twice, HalfTurn(im))
  {
    var t1 := TurnClockwise(im);
    TurnsKeepCrisp(im);
    var once := ApplyTransform(im, "ROTATE_90", blend);
    QuarterTurnDirections(im, blend);
    ClockwiseOfSame(once, t1, blend);
    TwoClockwiseTurns(im);
    SameTransitive(ApplyTransform(once, "ROTATE_90", blend), TurnClockwise(t1), HalfTurn(im));
  }

  lemma HalfTurnOfTwoTurns(im: Image)
    ensures Same(HalfTurn(TurnClockwise(TurnClockwise(im))), im)
  {
    var t2 := TurnClockwise(TurnClockwise(im));
    TwoClockwiseTurns(im);
    SameTransposes(t2, HalfTurn(im));
    HalfTurnTwice(im);
    SameTransitive(HalfTurn(t2), HalfTurn(HalfTurn(im)), im);
  }

  /** Four ROTATE_90 in a row give a crisp crop back when width and height
      have the same parity. */
  lemma FourQuarterTurns(im: Image, blend: Blend)
    requires CrispImage(im)
    requires (im.width - im.height) % 2 == 0
    ensures var once := ApplyTransform(im, "ROTATE_90", blend);
      var twice := ApplyTransform(once, "ROTATE_90", blend);
      var thrice := ApplyTransform(twice, "ROTATE_90", blend);
      Same(ApplyTransform(thrice, "ROTATE_90", blend), im)
  {
    var t2 := TurnClockwise(TurnClockwise(im));
    TurnsKeepCrisp(im);
    TurnsKeepCrisp(TurnClockwise(im));
    var twice := ApplyTransform(ApplyTransform(im, "ROTATE_90", blend), "ROTATE_90", blend);
    TwoQuarterTurns(im, blend);
    var thrice := ApplyTransform(twice, "ROTATE_90", blend);
    SameApplyTransform(twice, t2, "ROTATE_90", blend);
    SameApplyTransform(thrice, ApplyTransform(t2, "ROTATE_90", blend), "ROTATE_90", blend);
    var back := ApplyTransform(ApplyTransform(t2, "ROTATE_90", blend), "ROTATE_90", blend);
    TwoQuarterTurns(t2, blend);
    HalfTurnOfTwoTurns(im);
    SameTransitive(ApplyTransform(thrice, "ROTATE_90", blend), back, HalfTurn(t2));
    SameTransitive(ApplyTransform(thrice, "ROTATE_90", blend), HalfTurn(t2), im);
  }


  // ---------------------------------------------------------------------
  // The one-pixel shift of the padded turn
  // ---------------------------------------------------------------------

  /** The clockwise padded turn reads row h - x instead of h - 1 - x when the
      crop is wider than tall by an odd amount. */
  lemma PaddedClockwiseShift(im: Image, blend: Blend)
    requires im.width > im.height && (im.width - im.height) % 2 == 1
    ensures forall x, y :: 0 <= x < im.height && 0 <= y < im.width ==>
      PaddedTurn(im, true, blend).At(x, y) == SettledAt(im, y, im.height - x, blend)
  {
    assert ClockwiseShift(im.width, im.height) == 1;
    forall x, y | 0 <= x < im.height && 0 <= y < im.width
      ensures PaddedTurn(im, true, blend).At(x, y) == SettledAt(im, y, im.height - x, blend)
    {
      PaddedClockwiseAt(im, blend, x, y);
      assert im.height - 1 + ClockwiseShift(im.width, im.height) - x == im.height - x;
    }
  }

  /** The counter-clockwise padded turn reads column w - y instead of
      w - 1 - y when the crop is taller than wide by an odd amount. */
  lemma PaddedCounterClockwiseShift(im: Image, blend: Blend)
    requires im.height > im.width && (im.height - im.width) % 2 == 1
    ensures forall x, y :: 0 <= x < im.height && 0 <= y < im.width ==>
      PaddedTurn(im, false, blend).At(x, y) == SettledAt(im, im.width - y, x, blend)
  {
    assert CounterClockwiseShift(im.width, im.height) == 1;
    forall x, y | 0 <= x < im.height && 0 <= y < im.width
      ensures PaddedTurn(im, false, blend).At(x, y) == SettledAt(im, im.width - y, x, blend)
    {
      PaddedCounterClockwiseAt(im, blend, x, y);
      assert im.width - 1 + CounterClockwiseShift(im.width, im.height) - y == im.width - y;
    }
  }

  /** When the crop is wider than tall by an odd amount, ROTATE_90 reads every
      pixel from one row lower than a plain turn would, so its first column
      is always transparent and the source's top row is lost. */
  lemma ClockwiseShiftWhenWiderByOdd(im: Image, blend: Blend)
    requires im.width > im.height && (im.width - im.height) % 2 == 1
    ensures forall x, y :: 0 <= x < im.height && 0 <= y < im.width ==>
      ApplyTransform(im, "ROTATE_90", blend).At(x, y) == SettledAt(im, y, im.height - x, blend)
    ensures forall y :: 0 <= y < im.width ==> ApplyTransform(im, "ROTATE_90", blend).At(0, y) == Transparent
  {
    QuarterTurnLabels(im, blend);
    PaddedClockwiseShift(im, blend);
  }

  /** When the crop is taller than wide by an odd amount, ROTATE_270 (and so
      MIRROR_ROTATE_180) reads every pixel one column to the right of a plain
      turn, so its first row is always transparent. */
  lemma CounterClockwiseShiftWhenTallerByOdd(im: Image, blend: Blend)
    requires im.height > im.width && (im.height - im.width) % 2 == 1
    ensures forall x, y :: 0 <= x < im.height && 0 <= y < im.width ==>
      ApplyTransform(im, "ROTATE_270", blend).At(x, y) == SettledAt(im, im.width - y, x, blend)
    ensures forall x :: 0 <= x < im.height ==> ApplyTransform(im, "ROTATE_270", blend).At(x, 0) == Transparent
  {
    QuarterTurnLabels(im, blend);
    PaddedCounterClockwiseShift(im, blend);
  }

  const Red: Pixel := Pixel(255, 0, 0, 255)

  /** An opaque red bar two pixels wide and one pixel tall. */
  function RedBar(): (bar: Image)
    ensures bar.width == 2 && bar.height == 1
    ensures forall x, y :: 0 <= x < 2 && 0 <= y < 1 ==> bar.At(x, y) == Red
  {
    Build(2, 1, (x, y) => Red)
  }

  /** ROTATE_90 of the 2 x 1 red bar comes out fully transparent, although its
      plain clockwise turn is red; and MIRROR_ROTATE_180 of it is 1 x 2, so it
      is not the vertical mirror, which keeps the bar 2 x 1. */
  lemma RedBarWitnesses(blend: Blend)
    ensures Same(ApplyTransform(RedBar(), "ROTATE_90", blend), Blank(1, 2))
    ensures TurnClockwise(RedBar()).At(0, 0) == Red
    ensures !Same(ApplyTransform(RedBar(), "MIRROR_ROTATE_180", blend), FlipTopBottom(RedBar()))
  {
    var bar := RedBar();
    ClockwiseShiftWhenWiderByOdd(bar, blend);
    var r := ApplyTransform(bar, "ROTATE_90", blend);
    forall x, y | 0 <= x < 1 && 0 <= y < 2
      ensures r.At(x, y) == Blank(1, 2).At(x, y)
    {
      assert x == 0;
    }
    QuarterTurnLabels(bar, blend);
  }
}
