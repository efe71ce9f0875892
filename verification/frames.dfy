/** Frame composition in from_json_to_frame.py: `build_frame` layers the parts
    of one frame onto a transparent canvas, and the frame loop renders every
    key of the capture in order, with its duration, ready for GIF export. */
module Frames {
  import opened Wrappers
  import opened Text
  import opened Imaging
  import opened Transforms
  import opened Directory
  import opened SpriteIndex
  import opened StableSort

  /** A rectangle of the capture: a part's `source` box or a frame's `bounds`. */
  datatype Rect = Rect(x: int, y: int, width: nat, height: nat)

  /** One part of a frame. `hash` is `sprite_hash.value` and `transform` is
      `transform.name`; the empty string stands for a key that is missing or
      null, which the code treats like an empty value. */
  datatype Part = Part(
    order: int,
    hash: string,
    source: Rect,
    transform: string,
    width: nat,
    height: nat,
    posX: int,
    posY: int)

  /** One entry of `frames`; `duration` is `duration_ms` when present. */
  datatype Frame = Frame(bounds: Rect, parts: seq<Part>, duration: Option<int>)

  /** The capture document: the frame keys in play order and the frames by key. */
  datatype Capture = Capture(frameKeys: seq<string>, frames: map<string, Frame>)

  /** Why rendering stops with an exception. */
  datatype FrameError =
    | MissingFrame(key: string)              // `frames[frame_key]` raises KeyError
    | UnreadableSprite(name: string)         // reopening an indexed sprite raises
    | ZeroSizeResize(width: nat, height: nat) // `resize` to a size with a zero side raises ValueError
    | ArityMismatch                          // `apply_transform` called with four arguments

  /** The image library's NEAREST resampling to a `w` x `h` grid; its pixel
      arithmetic is a parameter of the model. */
  type Resample = (Image, nat, nat) -> ((int, int) -> Pixel)

  /** The sprite directory and the index built from it. */
  datatype Library = Library(entries: seq<Entry>, index: Index)

  /** The lookup key of a part: its hash in lower case. */
  function LookupKey(p: Part): string {
    Lower(p.hash)
  }

  /** The part names a sprite the index knows; other parts are skipped. */
  predicate Resolves(p: Part, lib: Library) {
    LookupKey(p) != "" && LookupKey(p) in lib.index
  }

  /** The indexed file of a resolving part, opened again. */
  function Reopen(p: Part, lib: Library): Option<Image>
    requires Resolves(p, lib)
  {
    Open(lib.entries, lib.index[LookupKey(p)])
  }

  /** `sorted(parts, key=lambda p: p["order"])` */
  function SortParts(parts: seq<Part>): (r: seq<Part>)
    ensures |r| == |parts|
  {
    SortBy(parts, (p: Part) => p.order, (a: int, b: int) => a < b)
  }

  /** Step 3: resize only when the transformed crop is not already `w` x `h`.
      The image library refuses to resize to a size with a zero side. */
  function Fit(im: Image, w: nat, h: nat, resample: Resample): (r: Result<Image, FrameError>)
    ensures r.Failure? <==> (w == 0 || h == 0) && !(im.width == w && im.height == h)
    ensures r.Failure? ==> r.error == ZeroSizeResize(w, h)
    ensures r.Success? ==> r.value.width == w && r.value.height == h
    ensures im.width == w && im.height == h ==> r == Success(im)
  {
    if im.width == w && im.height == h then Success(im)
    else if w == 0 || h == 0 then Failure(ZeroSizeResize(w, h))
    else Success(Build(w, h, resample(im, w, h)))
  }

  /** Steps 1 and 2 for one part: crop the source box and apply the transform. */
  function Transformed(sprite: Image, p: Part, blend: Blend): Image {
    ApplyTransform(Crop(sprite, p.source.x, p.source.y, p.source.width, p.source.height), p.transform, blend)
  }

  /** Steps 1 to 3 for one part: crop the source box, apply the transform,
      fit to the part's size. A quarter turn swaps the sides of the box, so
      whether the resize is refused depends on the label. */
  function PartImage(sprite: Image, p: Part, blend: Blend, resample: Resample): (r: Result<Image, FrameError>)
    ensures r.Success? ==> r.value.width == p.width && r.value.height == p.height
    ensures r.Failure? ==> r.error == ZeroSizeResize(p.width, p.height)
  {
    Fit(Transformed(sprite, p, blend), p.width, p.height, resample)
  }

  /** The resize is refused exactly when the part's size has a zero side and
      differs from the transformed crop, whose sides a quarter turn swaps. */
  lemma PartImageRefused(sprite: Image, p: Part, blend: Blend, resample: Resample)
    ensures ParseLabel(p.transform).PaddedQuarterTurn? ==>
              (PartImage(sprite, p, blend, resample).Failure? <==>
                 (p.width == 0 || p.height == 0) && !(p.source.height == p.width && p.source.width == p.height))
    ensures !ParseLabel(p.transform).PaddedQuarterTurn? ==>
              (PartImage(sprite, p, blend, resample).Failure? <==>
                 (p.width == 0 || p.height == 0) && !(p.source.width == p.width && p.source.height == p.height))
  {
  }

  /** How a reopened sprite becomes a part's image, or the error that stops
      the frame. The loop uses `Renderer`; the composition lemmas hold for
      any such step. */
  type Render = (Image, Part) -> Result<Image, FrameError>

  function Renderer(blend: Blend, resample: Resample): Render {
    (sprite: Image, p: Part) => PartImage(sprite, p, blend, resample)
  }

  /** The loop body raises on `p`: its sprite does not reopen, or `render`
      refuses it. */
  predicate Raises(p: Part, lib: Library, render: Render) {
    Resolves(p, lib) && (Reopen(p, lib).None? || render(Reopen(p, lib).value, p).Failure?)
  }

  /** The exception the loop body raises on `p`. */
  function ErrorOf(p: Part, lib: Library, render: Render): FrameError
    requires Raises(p, lib, render)
  {
    if Reopen(p, lib).None? then UnreadableSprite(lib.index[LookupKey(p)])
    else render(Reopen(p, lib).value, p).error
  }

  /** One pass of the loop body: skip an unresolved part, otherwise reopen
      its sprite and paste the part image `render` makes of it at its
      position relative to the frame's bounds, with its own alpha as the mask. */
  function Layer(canvas: Image, p: Part, bounds: Rect, lib: Library, blend: Blend, render: Render)
    : (r: Result<Image, FrameError>)
    ensures !Resolves(p, lib) ==> r == Success(canvas)
    ensures r.Success? ==> r.value.width == canvas.width && r.value.height == canvas.height
  {
    if !Resolves(p, lib) then Success(canvas)
    else
      var name := lib.index[LookupKey(p)];
      match Open(lib.entries, name)
      case None => Failure(UnreadableSprite(name))
      case Some(sprite) =>
        match render(sprite, p)
        case Failure(e) => Failure(e)
        case Success(top) => Success(Paste(canvas, top, p.posX - bounds.x, p.posY - bounds.y, blend))
  }

  /** The loop of `build_frame` over `parts` in the given order. */
  function Compose(canvas: Image, parts: seq<Part>, bounds: Rect, lib: Library, blend: Blend, render: Render)
    : (r: Result<Image, FrameError>)
    ensures r.Success? ==> r.value.width == canvas.width && r.value.height == canvas.height
  {
    if |parts| == 0 then Success(canvas)
    else
      var before := Compose(canvas, parts[..|parts| - 1], bounds, lib, blend, render);
      if before.Failure? then before
      else Layer(before.value, parts[|parts| - 1], bounds, lib, blend, render)
  }

  /** `build_frame(frame_key)` with `apply_transform` called with the label only. */
  function BuildFrame(capture: Capture, key: string, lib: Library, blend: Blend, resample: Resample)
    : (r: Result<Image, FrameError>)
    ensures key !in capture.frames <==> r == Failure(MissingFrame(key))
    ensures r.Success? ==> r.value.width == capture.frames[key].bounds.width &&
                           r.value.height == capture.frames[key].bounds.height
  {
    if key !in capture.frames then Failure(MissingFrame(key))
    else
      var f := capture.frames[key];
      var canvas := Blank(f.bounds.width, f.bounds.height);
      RendererErrors(canvas, SortParts(f.parts), f.bounds, lib, blend, resample);
      Compose(canvas, SortParts(f.parts), f.bounds, lib, blend, Renderer(blend, resample))
  }

  // ---------------------------------------------------------------------
  // The code as written: apply_transform(crop, name, 0, 0)
  // ---------------------------------------------------------------------

  /** The loop body as written: the call with four arguments raises as soon
      as a part gets past the hash lookup and the reopen. */
  function LayerAsWritten(canvas: Image, p: Part, lib: Library): Result<Image, FrameError> {
    if !Resolves(p, lib) then Success(canvas)
    else
      var name := lib.index[LookupKey(p)];
      match Open(lib.entries, name)
      case None => Failure(UnreadableSprite(name))
      case Some(_) => Failure(ArityMismatch)
  }

  function ComposeAsWritten(canvas: Image, parts: seq<Part>, lib: Library): (r: Result<Image, FrameError>)
    ensures r.Failure? ==> r.error.UnreadableSprite? || r.error == ArityMismatch
  {
    if |parts| == 0 then Success(canvas)
    else
      var before := ComposeAsWritten(canvas, parts[..|parts| - 1], lib);
      if before.Failure? then before else LayerAsWritten(before.value, parts[|parts| - 1], lib)
  }

  /** `build_frame(frame_key)` as written: a missing key raises KeyError, and
      a frame that renders at all is the blank canvas of its bounds. */
  function BuildFrameAsWritten(capture: Capture, key: string, lib: Library): (r: Result<Image, FrameError>)
    ensures key !in capture.frames <==> r == Failure(MissingFrame(key))
    ensures r.Success? ==> r.value == Blank(capture.frames[key].bounds.width, capture.frames[key].bounds.height)
  {
    if key !in capture.frames then Failure(MissingFrame(key))
    else
      var f := capture.frames[key];
      var canvas := Blank(f.bounds.width, f.bounds.height);
      AsWrittenDrawsNothing(canvas, SortParts(f.parts), lib);
      ComposeAsWritten(canvas, SortParts(f.parts), lib)
  }

  /** As written, a frame renders only when none of its parts resolves, and
      then it is the blank canvas: no sprite is ever drawn. */
  lemma {:induction false} AsWrittenDrawsNothing(canvas: Image, parts: seq<Part>, lib: Library)
    ensures ComposeAsWritten(canvas, parts, lib).Success? <==>
            forall i :: 0 <= i < |parts| ==> !Resolves(parts[i], lib)
    ensures ComposeAsWritten(canvas, parts, lib).Success? ==> ComposeAsWritten(canvas, parts, lib).value == canvas
  {
    if |parts| > 0 {
      var init := parts[..|parts| - 1];
      AsWrittenDrawsNothing(canvas, init, lib);
      assert forall i :: 0 <= i < |init| ==> init[i] == parts[i];
    }
  }

  /** A one-part frame whose sprite is indexed: as written it raises on the
      call with four arguments, while the two-argument call renders it. */
  lemma ArityWitness(blend: Blend, resample: Resample)
    ensures var sprite := Blank(1, 1);
            var lib := Library([Entry("a.png", Some(sprite))], map["ab" := "a.png"]);
            var part := Part(0, "ab", Rect(0, 0, 1, 1), "", 1, 1, 0, 0);
            var capture := Capture(["f"], map["f" := Frame(Rect(0, 0, 1, 1), [part], None)]);
            BuildFrameAsWritten(capture, "f", lib) == Failure(ArityMismatch) &&
            BuildFrame(capture, "f", lib, blend, resample).Success?
  {
    var sprite := Blank(1, 1);
    var lib := Library([Entry("a.png", Some(sprite))], map["ab" := "a.png"]);
    var part := Part(0, "ab", Rect(0, 0, 1, 1), "", 1, 1, 0, 0);
    assert LookupKey(part) == "ab";
    assert SortParts([part]) == [part];
    assert Open(lib.entries, "a.png") == Some(sprite);
    assert [part][..0] == [];
  }

  // ---------------------------------------------------------------------
  // Properties of composition
  // ---------------------------------------------------------------------

  /** The parts that resolve, in their order. */
  function ResolvedParts(parts: seq<Part>, lib: Library): (r: seq<Part>)
    ensures forall i :: 0 <= i < |r| ==> Resolves(r[i], lib)
  {
    if |parts| == 0 then []
    else
      var init := ResolvedParts(parts[..|parts| - 1], lib);
      if Resolves(parts[|parts| - 1], lib) then init + [parts[|parts| - 1]] else init
  }

  /** Skipped parts play no role: composing all parts is composing the
      resolving ones. */
  lemma {:induction false} SkippedPartsIgnored(canvas: Image, parts: seq<Part>, bounds: Rect, lib: Library,
                                               blend: Blend, render: Render)
    ensures Compose(canvas, parts, bounds, lib, blend, render) ==
            Compose(canvas, ResolvedParts(parts, lib), bounds, lib, blend, render)
  {
    if |parts| > 0 {
      var init, last := parts[..|parts| - 1], parts[|parts| - 1];
      SkippedPartsIgnored(canvas, init, bounds, lib, blend, render);
      if Resolves(last, lib) {
        var rs := ResolvedParts(init, lib) + [last];
        assert rs[..|rs| - 1] == ResolvedParts(init, lib);
      }
    }
  }

  /** A frame none of whose parts resolves is the transparent canvas of its bounds. */
  lemma {:induction false} UnresolvedFrameIsBlank(canvas: Image, parts: seq<Part>, bounds: Rect, lib: Library,
                                                  blend: Blend, render: Render)
    requires forall i :: 0 <= i < |parts| ==> !Resolves(parts[i], lib)
    ensures Compose(canvas, parts, bounds, lib, blend, render) == Success(canvas)
  {
    if |parts| > 0 {
      UnresolvedFrameIsBlank(canvas, parts[..|parts| - 1], bounds, lib, blend, render);
    }
  }

  /** The loop body raises exactly on a part that `Raises`, with that
      part's exception. */
  lemma LayerRaises(canvas: Image, p: Part, bounds: Rect, lib: Library, blend: Blend, render: Render)
    ensures Layer(canvas, p, bounds, lib, blend, render).Failure? <==> Raises(p, lib, render)
    ensures Layer(canvas, p, bounds, lib, blend, render).Failure? ==>
            Layer(canvas, p, bounds, lib, blend, render).error == ErrorOf(p, lib, render)
  {
  }

  /** Composition fails exactly when some part raises, and then with the
      exception of the first part that does: later parts are never reached,
      and missing or unknown hashes never stop it. */
  lemma {:induction false} ComposeFailsAtFirstRaise(canvas: Image, parts: seq<Part>, bounds: Rect, lib: Library,
                                                    blend: Blend, render: Render)
    ensures Compose(canvas, parts, bounds, lib, blend, render).Failure? <==>
            exists i :: 0 <= i < |parts| && Raises(parts[i], lib, render)
    ensures Compose(canvas, parts, bounds, lib, blend, render).Failure? ==>
            exists i :: 0 <= i < |parts| && Raises(parts[i], lib, render) &&
              (forall j :: 0 <= j < i ==> !Raises(parts[j], lib, render)) &&
              Compose(canvas, parts, bounds, lib, blend, render).error == ErrorOf(parts[i], lib, render)
  {
    if |parts| > 0 {
      var init, last := parts[..|parts| - 1], parts[|parts| - 1];
      ComposeFailsAtFirstRaise(canvas, init, bounds, lib, blend, render);
      assert forall i :: 0 <= i < |init| ==> init[i] == parts[i];
      var before := Compose(canvas, init, bounds, lib, blend, render);
      if before.Failure? {
        var i :| 0 <= i < |init| && Raises(init[i], lib, render) &&
                 (forall j :: 0 <= j < i ==> !Raises(init[j], lib, render)) &&
                 before.error == ErrorOf(init[i], lib, render);
        assert Raises(parts[i], lib, render);
      } else {
        LayerRaises(before.value, last, bounds, lib, blend, render);
        if Raises(last, lib, render) {
          assert Raises(parts[|parts| - 1], lib, render);
        }
      }
    }
  }

  /** With the loop's own renderer, a resolving part raises exactly when its
      sprite does not reopen (`UnreadableSprite`) or when its transformed crop
      must be resized to a size with a zero side (`ZeroSizeResize`). */
  lemma RendererRaises(p: Part, lib: Library, blend: Blend, resample: Resample)
    requires Resolves(p, lib)
    ensures Raises(p, lib, Renderer(blend, resample)) <==>
            Reopen(p, lib).None? || PartImage(Reopen(p, lib).value, p, blend, resample).Failure?
    ensures Raises(p, lib, Renderer(blend, resample)) ==>
            ErrorOf(p, lib, Renderer(blend, resample)) ==
              if Reopen(p, lib).None? then UnreadableSprite(lib.index[LookupKey(p)])
              else ZeroSizeResize(p.width, p.height)
  {
  }

  /** With the loop's own renderer the only exceptions are an unreadable
      sprite and a refused resize. */
  lemma RendererErrors(canvas: Image, parts: seq<Part>, bounds: Rect, lib: Library, blend: Blend, resample: Resample)
    ensures var r := Compose(canvas, parts, bounds, lib, blend, Renderer(blend, resample));
            r.Failure? ==> r.error.UnreadableSprite? || r.error.ZeroSizeResize?
  {
    var render := Renderer(blend, resample);
    ComposeFailsAtFirstRaise(canvas, parts, bounds, lib, blend, render);
    if Compose(canvas, parts, bounds, lib, blend, render).Failure? {
      var i :| 0 <= i < |parts| && Raises(parts[i], lib, render) &&
               (forall j :: 0 <= j < i ==> !Raises(parts[j], lib, render)) &&
               Compose(canvas, parts, bounds, lib, blend, render).error == ErrorOf(parts[i], lib, render);
      RendererRaises(parts[i], lib, blend, resample);
    }
  }

  /** `build_frame` raises KeyError for a missing key, and otherwise only for
      an unreadable sprite or a refused resize. */
  lemma BuildFrameErrors(capture: Capture, key: string, lib: Library, blend: Blend, resample: Resample)
    ensures var r := BuildFrame(capture, key, lib, blend, resample);
            r.Failure? ==> r.error.MissingFrame? || r.error.UnreadableSprite? || r.error.ZeroSizeResize?
  {
    if key in capture.frames {
      var f := capture.frames[key];
      RendererErrors(Blank(f.bounds.width, f.bounds.height), SortParts(f.parts), f.bounds, lib, blend, resample);
    }
  }

  /** A part whose 3 x 5 source box must be resized to 0 x 5 stops the frame,
      while the same part with size 3 x 5 is pasted as it is. */
  lemma ZeroSizeWitness(blend: Blend, resample: Resample)
    ensures var lib := Library([Entry("a.png", Some(Blank(3, 5)))], map["ab" := "a.png"]);
            var part := Part(0, "ab", Rect(0, 0, 3, 5), "", 0, 5, 0, 0);
            var capture := Capture(["f"], map["f" := Frame(Rect(0, 0, 4, 5), [part], None)]);
            BuildFrame(capture, "f", lib, blend, resample) == Failure(ZeroSizeResize(0, 5)) &&
            BuildFrame(capture.(frames := map["f" := Frame(Rect(0, 0, 4, 5), [part.(width := 3)], None)]),
                       "f", lib, blend, resample).Success?
  {
    var lib := Library([Entry("a.png", Some(Blank(3, 5)))], map["ab" := "a.png"]);
    var part := Part(0, "ab", Rect(0, 0, 3, 5), "", 0, 5, 0, 0);
    var wide := part.(width := 3);
    assert LookupKey(part) == "ab" && LookupKey(wide) == "ab";
    assert SortParts([part]) == [part] && SortParts([wide]) == [wide];
    assert Reopen(part, lib) == Some(Blank(3, 5));
    assert [part][..0] == [] && [wide][..0] == [];
  }

  /** Composing one more part layers it over what the earlier parts made. */
  lemma ComposeLast(canvas: Image, parts: seq<Part>, p: Part, bounds: Rect, lib: Library,
                    blend: Blend, render: Render)
    ensures Compose(canvas, parts, bounds, lib, blend, render).Failure? ==>
            Compose(canvas, parts + [p], bounds, lib, blend, render) == Compose(canvas, parts, bounds, lib, blend, render)
    ensures Compose(canvas, parts, bounds, lib, blend, render).Success? ==>
            Compose(canvas, parts + [p], bounds, lib, blend, render) ==
            Layer(Compose(canvas, parts, bounds, lib, blend, render).value, p, bounds, lib, blend, render)
  {
    assert (parts + [p])[..|parts|] == parts;
  }

  /** A resolving part whose sprite reopens and renders is pasted at its
      position relative to the frame's bounds. */
  lemma LayerPastes(canvas: Image, p: Part, bounds: Rect, lib: Library, blend: Blend, render: Render,
                    sprite: Image, top: Image)
    requires Resolves(p, lib) && Reopen(p, lib) == Some(sprite) && render(sprite, p) == Success(top)
    ensures Layer(canvas, p, bounds, lib, blend, render) ==
            Success(Paste(canvas, top, p.posX - bounds.x, p.posY - bounds.y, blend))
  {
  }

  /** When the last part resolves and renders, the frame is the earlier
      parts' result with that part pasted on top. */
  lemma ComposeLastPaste(canvas: Image, parts: seq<Part>, p: Part, bounds: Rect, lib: Library,
                         blend: Blend, render: Render, sprite: Image, top: Image)
    requires Compose(canvas, parts + [p], bounds, lib, blend, render).Success?
    requires Resolves(p, lib) && Reopen(p, lib) == Some(sprite) && render(sprite, p) == Success(top)
    ensures Compose(canvas, parts, bounds, lib, blend, render).Success?
    ensures Compose(canvas, parts + [p], bounds, lib, blend, render).value ==
            Paste(Compose(canvas, parts, bounds, lib, blend, render).value, top,
                  p.posX - bounds.x, p.posY - bounds.y, blend)
  {
    ComposeLast(canvas, parts, p, bounds, lib, blend, render);
    var before := Compose(canvas, parts, bounds, lib, blend, render);
    if before.Success? {
      LayerPastes(before.value, p, bounds, lib, blend, render, sprite, top);
    }
  }

  /** At a position the last part covers with an opaque pixel, the result
      shows that pixel, whatever the earlier parts drew there. */
  lemma LastOpaqueWins(canvas: Image, parts: seq<Part>, p: Part, bounds: Rect, lib: Library,
                       blend: Blend, render: Render, sprite: Image, top: Image, x: int, y: int)
    requires Compose(canvas, parts + [p], bounds, lib, blend, render).Success?
    requires Resolves(p, lib) && Reopen(p, lib) == Some(sprite) && render(sprite, p) == Success(top)
    requires canvas.Contains(x, y)
    requires Covers(top, p.posX - bounds.x, p.posY - bounds.y, x, y)
    requires top.At(x - (p.posX - bounds.x), y - (p.posY - bounds.y)).a == 255
    ensures Compose(canvas, parts + [p], bounds, lib, blend, render).value.At(x, y) ==
            top.At(x - (p.posX - bounds.x), y - (p.posY - bounds.y))
  {
    ComposeLastPaste(canvas, parts, p, bounds, lib, blend, render, sprite, top);
    var before := Compose(canvas, parts, bounds, lib, blend, render).value;
    PasteOpaqueAt(before, top, p.posX - bounds.x, p.posY - bounds.y, blend, x, y);
  }

  /** Where the last part's pixel is fully transparent, or where it does
      not reach, the canvas keeps what the earlier parts drew. */
  lemma LastClearKeeps(canvas: Image, parts: seq<Part>, p: Part, bounds: Rect, lib: Library,
                       blend: Blend, render: Render, sprite: Image, top: Image, x: int, y: int)
    requires Compose(canvas, parts + [p], bounds, lib, blend, render).Success?
    requires Resolves(p, lib) && Reopen(p, lib) == Some(sprite) && render(sprite, p) == Success(top)
    requires canvas.Contains(x, y)
    requires !Covers(top, p.posX - bounds.x, p.posY - bounds.y, x, y) ||
             top.At(x - (p.posX - bounds.x), y - (p.posY - bounds.y)).a == 0
    ensures Compose(canvas, parts, bounds, lib, blend, render).Success?
    ensures Compose(canvas, parts + [p], bounds, lib, blend, render).value.At(x, y) ==
            Compose(canvas, parts, bounds, lib, blend, render).value.At(x, y)
  {
    ComposeLastPaste(canvas, parts, p, bounds, lib, blend, render, sprite, top);
    var before := Compose(canvas, parts, bounds, lib, blend, render).value;
    PasteClearAt(before, top, p.posX - bounds.x, p.posY - bounds.y, blend, x, y);
  }

  /** Parts are layered by ascending `order`; parts with equal `order` keep
      their document order, and none is lost or repeated. */
  lemma SortPartsOrder(parts: seq<Part>, k: int)
    ensures multiset(SortParts(parts)) == multiset(parts)
    ensures forall i, j :: 0 <= i < j < |SortParts(parts)| ==> SortParts(parts)[i].order <= SortParts(parts)[j].order
    ensures Having(SortParts(parts), (p: Part) => p.order, k) == Having(parts, (p: Part) => p.order, k)
  {
    var less := (a: int, b: int) => a < b;
    assert StrictTotal(less);
    SortBySorted(parts, (p: Part) => p.order, less);
    SortByStable(parts, (p: Part) => p.order, less, k);
  }

  // ---------------------------------------------------------------------
  // The frame loop and the export
  // ---------------------------------------------------------------------

  /** `frames[key].get("duration_ms", 40)` */
  function DurationOf(f: Frame): int {
    f.duration.GetOr(40)
  }

  /** The default of 40 ms applies exactly when the frame has no duration;
      a stored duration is used as it is, whatever its value. */
  lemma DurationDefault(f: Frame)
    ensures DurationOf(f) == 40 <==> f.duration.None? || f.duration.value == 40
    ensures f.duration.Some? ==> DurationOf(f) == f.duration.value
  {
  }

  /** The GIF the script writes: the first frame carries the rest, one
      duration per frame, looping forever, each frame cleared to the
      background before the next. */
  datatype GifPlan = GifPlan(first: Image, rest: seq<Image>, durations: seq<int>,
                             loop: nat, disposal: nat, transparency: nat)

  /** The export step: nothing is written when there are no frames. */
  function Export(images: seq<Image>, durations: seq<int>): (r: Option<GifPlan>)
    ensures r.Some? <==> |images| > 0
    ensures r.Some? ==> [r.value.first] + r.value.rest == images && r.value.durations == durations
    ensures r.Some? ==> r.value.loop == 0 && r.value.disposal == 2 && r.value.transparency == 0
  {
    if |images| == 0 then None
    else Some(GifPlan(images[0], images[1..], durations, 0, 2, 0))
  }

  /** The frame loop: every key in order, stopping at the first frame that
      raises. On success there is one image and one duration per key. */
  method RenderCapture(capture: Capture, lib: Library, blend: Blend, resample: Resample)
    returns (r: Result<(seq<Image>, seq<int>), FrameError>)
    ensures r.Success? <==>
            forall i :: 0 <= i < |capture.frameKeys| ==>
              BuildFrame(capture, capture.frameKeys[i], lib, blend, resample).Success?
    ensures r.Success? ==>
            |r.value.0| == |capture.frameKeys| && |r.value.1| == |capture.frameKeys| &&
            forall i :: 0 <= i < |capture.frameKeys| ==>
              BuildFrame(capture, capture.frameKeys[i], lib, blend, resample) == Success(r.value.0[i]) &&
              r.value.1[i] == DurationOf(capture.frames[capture.frameKeys[i]])
    ensures r.Failure? ==>
            exists i :: 0 <= i < |capture.frameKeys| &&
              BuildFrame(capture, capture.frameKeys[i], lib, blend, resample) == Failure(r.error) &&
              forall j :: 0 <= j < i ==> BuildFrame(capture, capture.frameKeys[j], lib, blend, resample).Success?
  {
    var keys := capture.frameKeys;
    var images: seq<Image> := [];
    var durations: seq<int> := [];
    var n := 0;
    while n < |keys|
      invariant 0 <= n <= |keys|
      invariant |images| == n && |durations| == n
      invariant forall i :: 0 <= i < n ==>
        BuildFrame(capture, keys[i], lib, blend, resample) == Success(images[i]) &&
        durations[i] == DurationOf(capture.frames[keys[i]])
    {
      var built := BuildFrame(capture, keys[n], lib, blend, resample);
      if built.Failure? {
        return Failure(built.error);
      }
      images := images + [built.value];
      durations := durations + [DurationOf(capture.frames[keys[n]])];
      n := n + 1;
    }
    return Success((images, durations));
  }

  /** The script's main line: render every key, then export the GIF. When
      no frame raises, the plan holds the frames in key order, each with its
      own duration, and there is a plan exactly when there is a key. */
  method RenderAndExport(capture: Capture, lib: Library, blend: Blend, resample: Resample)
    returns (r: Result<Option<GifPlan>, FrameError>)
    ensures r.Success? <==>
            forall i :: 0 <= i < |capture.frameKeys| ==>
              BuildFrame(capture, capture.frameKeys[i], lib, blend, resample).Success?
    ensures r.Success? ==> (r.value.Some? <==> |capture.frameKeys| > 0)
    ensures r.Success? && r.value.Some? ==>
            var plan := r.value.value;
            |plan.rest| + 1 == |capture.frameKeys| && |plan.durations| == |capture.frameKeys| &&
            forall i :: 0 <= i < |capture.frameKeys| ==>
              BuildFrame(capture, capture.frameKeys[i], lib, blend, resample) == Success(([plan.first] + plan.rest)[i]) &&
              plan.durations[i] == DurationOf(capture.frames[capture.frameKeys[i]])
  {
    var rendered := RenderCapture(capture, lib, blend, resample);
    if rendered.Failure? {
      return Failure(rendered.error);
    }
    return Success(Export(rendered.value.0, rendered.value.1));
  }
}
