# Sprite frame pipeline and colour finder, modelled in Dafny

This project models the pure core of a small sprite-animation toolkit. It has three scripts.

- **from_json_to_frame.py** renders the frames of a captured animation. Each frame of the capture document lists parts. A part names a sprite by the SHA-256 digest of its pixels in ARGB byte order, plus a source box, a transform label, a target size and a position. The script:
  - indexes a sprite directory by content hash;
  - crops, transforms, resizes and alpha-pastes every part onto a transparent canvas the size of the frame's bounds, in ascending `order` (with the two-argument `apply_transform`; as written, the call raises a TypeError, see Findings);
  - collects one image and one duration per frame key, for GIF export.
- **from_json_to_spritesheet.py** lays the frames out in a single-row atlas. Every cell is the largest frame plus padding, and every frame is centred in its cell.
- **image_finder.py** finds pictures that contain one or two colours. This project models:
  - the six-digit hex colour fields and their sanitiser;
  - the checks made before a search;
  - the colour filter over a folder listing;
  - the three orderings of the results, one of them a "natural" file-name order.

## Modules

- **Imaging**: RGBA pixels and images.
  - Images are total functions from positions to pixels, with a size. `Same` means the same picture.
  - The image-library primitives the scripts call: blank canvas, crop, masked paste, the transposes.
  - Their pointwise laws.
- **ArgbHash**: the byte stream that is hashed, the fallback loop that builds it, and its decoding.
- **Transforms**: `apply_transform`, including the padded quarter turn exactly as written.
- **Directory**: a directory listing with the picture each file opens to.
- **SpriteIndex**: the digest-to-file-name table.
- **StableSort**: Python's stable `sorted`/`list.sort` by a key. Insertion sort is the reference.
- **Frames**:
  - `build_frame`, both with the two-argument `apply_transform` and as written;
  - the frame loop;
  - the GIF export plan.
- **Spritesheet**: `build_spritesheet`.
- **NaturalSort**: `natural_sort_key` and the way Python compares the keys.
- **ImageFinder**: colours, the sanitiser, `start_search`, the filter and `on_sort_change`.

The model follows the code where the code differs from the documentation written about it:

- `MIRROR_ROTATE_180` runs the padded counter-clockwise quarter turn (from_json_to_frame.py:51-70). It is not a vertical mirror. It returns the same picture as `ROTATE_270`.
- `MIRROR_ROTATE_90` and `MIRROR_ROTATE_270` are accepted by the quarter-turn branch, but no operation is chosen for them. They return the crop unchanged (from_json_to_frame.py:74-87 and 103).
- After the transform, a part is resized to its `size` when its dimensions differ (from_json_to_frame.py:163-167).
- The padded quarter turn is not always a plain quarter turn.
  - The crop box is placed at `(side - h) // 2` and `(side - w) // 2`. So when the crop is wider than tall by an odd amount, `ROTATE_90` reads one row too far and loses the top row.
  - When it is taller than wide by an odd amount, `ROTATE_270` and `MIRROR_ROTATE_180` read one column too far.
  - The model keeps this behaviour. It proves the shift (`Transforms.ClockwiseShiftWhenWiderByOdd`) and gives a concrete case (`Transforms.RedBarWitnesses`).
  - The padded turn first pastes the crop onto a transparent square with the crop as its own mask (from_json_to_frame.py:60 and 95). That paste blends every channel, alpha included, so a partially transparent pixel comes out changed, and a pixel with alpha 0 but some colour comes out as (0, 0, 0, 0). The model keeps this blend as the `Blend` parameter.
  - For crisp crops (every pixel has alpha 255 or is (0, 0, 0, 0)) whose width and height have the same parity, the model proves the turns are exact and cancel.

Parameters stand for what the model does not compute:
- the SHA-256 function (`Sha256`);
- the blending of partially transparent pixels by a masked paste (`Blend`);
- the NEAREST resampler (`Resample`).

## Model

| member | source | states |
|---|---|---|
| `Imaging.Blank` | from_json_to_frame.py:139 | the new canvas has the requested size and is (0, 0, 0, 0) everywhere |
| `Imaging.Over` | from_json_to_frame.py:174 | a pixel pasted with its own alpha as mask keeps the destination when its alpha is 0 and replaces it when its alpha is 255 |
| `Imaging.PasteOpaqueAt` | from_json_to_frame.py:174 | after a masked paste, a position under an opaque source pixel shows that source pixel |
| `Imaging.PasteClearAt` | from_json_to_frame.py:174 | after a masked paste, a position the source does not reach, or reaches with alpha 0, keeps the destination pixel |
| `Imaging.Paste` | from_json_to_frame.py:174 | a paste keeps the canvas size (its pixels are `PasteOpaqueAt` and `PasteClearAt`) |
| `Imaging.Crop` | from_json_to_frame.py:156 | a crop box of w x h gives a w x h image |
| `Imaging.SettleCrisp` | from_json_to_frame.py:60 | pasting a crisp image (alpha 0 or 255, transparent pixels all zero) onto transparency reproduces it |
| `Imaging.FlipLeftRight` | from_json_to_frame.py:41-42 | the mirror keeps the size |
| `Imaging.FlipTopBottom` | from_json_to_frame.py:43-44 | the mirror keeps the size |
| `Imaging.HalfTurn` | from_json_to_frame.py:45-46 | the half turn keeps the size |
| `Imaging.TurnClockwise` | from_json_to_frame.py:82-83 | the library's ROTATE_270 transpose swaps width and height |
| `Imaging.TurnCounterClockwise` | from_json_to_frame.py:63 | the library's ROTATE_90 transpose swaps width and height |
| `Imaging.FlipLeftRightTwice` | from_json_to_frame.py:41-42 | mirroring left-right twice gives the same picture back |
| `Imaging.FlipTopBottomTwice` | from_json_to_frame.py:43-44 | mirroring top-bottom twice gives the same picture back |
| `Imaging.HalfTurnTwice` | from_json_to_frame.py:45-46 | two half turns give the same picture back |
| `Imaging.TurnsCancel` | from_json_to_frame.py:82-85 | the library's two quarter-turn transposes undo each other in either order |
| `Imaging.TwoClockwiseTurns` | from_json_to_frame.py:82-83 | two clockwise quarter turns are a half turn |
| `ArgbHash.PixelBytes` | from_json_to_frame.py:22 | each pixel contributes four bytes |
| `ArgbHash.RawArgb` | from_json_to_frame.py:16-18 | the stream has exactly `RowOffset(w, h)` bytes, four for every pixel of every row |
| `ArgbHash.RawArgbLayout` | from_json_to_frame.py:16-18 | the hashed stream is row-major; byte j of pixel (x, y) sits at ByteOffset(w, x, y) + j in the order a, r, g, b; its length is RowOffset(w, h) |
| `ArgbHash.RowOffsetIsProduct` | from_json_to_frame.py:18 | row y starts at byte 4·y·w, so pixel (x, y) starts at 4·(y·w + x) and the whole stream is 4·w·h bytes |
| `ArgbHash.DecodeRawArgb` | from_json_to_frame.py:16-18 | reading the stream back as a w x h image gives the same picture |
| `ArgbHash.RawArgbInjective` | from_json_to_frame.py:15-24 | two images of one size with equal streams are the same picture, so pictures that differ in any channel hash different input |
| `ArgbHash.SamePictureSameHash` | from_json_to_frame.py:15-24 | the same picture always gives the same stream and digest |
| `ArgbHash.FallbackArgb` | from_json_to_frame.py:19-23 | the fallback loop over the pixel data yields exactly the bytes of the direct ARGB conversion |
| `ArgbHash.PixelAt` | from_json_to_frame.py:22 | the four bytes starting at an in-range offset decode to a pixel whose ARGB bytes are those four |
| `Transforms.ApplyTransform` | from_json_to_frame.py:31-103 | quarter-turn labels return an h x w image; every other label keeps w x h |
| `Transforms.PaddedTurn` | from_json_to_frame.py:88-101 | the padded turn of a w x h crop is h x w |
| `Transforms.ClockwiseShift` | from_json_to_frame.py:89-101 | the clockwise crop box is off by one row exactly when the crop is wider than tall by an odd amount |
| `Transforms.CounterClockwiseShift` | from_json_to_frame.py:52-70 | the counter-clockwise crop box is off by one column exactly when the crop is taller than wide by an odd amount |
| `Transforms.OffsetBounds` | from_json_to_frame.py:55-59 | the crop sits on the square canvas with at least the padding of 2 free on every side |
| `Transforms.PaddedClockwiseAt` | from_json_to_frame.py:88-101 | output pixel (x, y) of the clockwise padded turn is source pixel (y, h - 1 + shift - x) as pasted onto transparency |
| `Transforms.PaddedCounterClockwiseAt` | from_json_to_frame.py:52-70 | output pixel (x, y) of the counter-clockwise padded turn is source pixel (w - 1 + shift - y, x) as pasted onto transparency |
| `Transforms.PaddedTurnIsShifted` | from_json_to_frame.py:88-101 | paste, transpose and crop together amount to the shifted turn of the settled source |
| `Transforms.PaddedClockwiseIsPlain` | from_json_to_frame.py:88-101 | without the shift, the clockwise padded turn equals the library's clockwise transpose of the settled crop |
| `Transforms.PaddedCounterClockwiseIsPlain` | from_json_to_frame.py:52-70 | without the shift, the counter-clockwise padded turn equals the library's counter-clockwise transpose of the settled crop |
| `Transforms.NormaliseUpperCase` | from_json_to_frame.py:36 | a non-empty label without lower-case letters is its own normal form |
| `Transforms.LabelCaseInsensitive` | from_json_to_frame.py:36-40 | a label and its upper-case form select the same result, and an empty label returns the input |
| `Transforms.UnrecognisedLabelKeepsImage` | from_json_to_frame.py:36-103 | any label outside the seven moving labels returns the crop unchanged |
| `Transforms.MirrorQuarterTurnsKeepImage` | from_json_to_frame.py:74-87 | MIRROR_ROTATE_90 and MIRROR_ROTATE_270, in any case, return the crop unchanged |
| `Transforms.MirrorAliases` | from_json_to_frame.py:41-42 | FLIP_H and MIRROR are both the left-right mirror |
| `Transforms.SelfInverseLabels` | from_json_to_frame.py:41-46 | FLIP_H, MIRROR, FLIP_V and ROTATE_180 applied twice give the crop back |
| `Transforms.QuarterTurnLabels` | from_json_to_frame.py:51-101 | ROTATE_90 is the clockwise padded turn; ROTATE_270 and MIRROR_ROTATE_180 are the same counter-clockwise padded turn |
| `Transforms.SameApplyTransform` | from_json_to_frame.py:31-103 | every label gives the same picture for inputs that are the same picture |
| `Transforms.QuarterTurnDirections` | from_json_to_frame.py:82-101 | for a crisp crop whose sides have equal parity, ROTATE_90 is a clockwise and ROTATE_270 a counter-clockwise quarter turn |
| `Transforms.QuarterTurnsCancel` | from_json_to_frame.py:74-101 | under the same conditions, ROTATE_90 and ROTATE_270 undo each other in either order |
| `Transforms.TwoQuarterTurns` | from_json_to_frame.py:82-101 | under the same conditions, two ROTATE_90 make a half turn |
| `Transforms.FourQuarterTurns` | from_json_to_frame.py:82-101 | under the same conditions, four ROTATE_90 give the crop back |
| `Transforms.ClockwiseShiftWhenWiderByOdd` | from_json_to_frame.py:89-101 | for a crop wider than tall by an odd amount, ROTATE_90 reads each pixel one row lower, and its first column is fully transparent |
| `Transforms.CounterClockwiseShiftWhenTallerByOdd` | from_json_to_frame.py:52-70 | for a crop taller than wide by an odd amount, ROTATE_270 reads each pixel one column further right, and its first row is fully transparent |
| `Transforms.RedBarWitnesses` | from_json_to_frame.py:51-101 | ROTATE_90 of an opaque 2 x 1 bar is fully transparent, though its plain turn is not; MIRROR_ROTATE_180 of it is not its vertical mirror |
| `Directory.Open` | from_json_to_frame.py:152 | a picture opened by name belongs to an entry of that name |
| `Directory.OpenFinds` | from_json_to_frame.py:147-152 | with distinct names, opening an entry's name gives that entry's picture |
| `SpriteIndex.IndexSize` | from_json_to_frame.py:119-129 | each file adds at most one entry, so the table never has more entries than the directory has files |
| `SpriteIndex.AddEntry` | from_json_to_frame.py:120-129 | a filtered-out or unreadable file leaves the table unchanged; otherwise its digest is added, or overwritten, with its name |
| `SpriteIndex.IndexKeys` | from_json_to_frame.py:119-130 | the table's keys are exactly the digests of readable files with an accepted suffix |
| `SpriteIndex.IndexCount` | from_json_to_frame.py:130 | the reported count is the number of distinct digests |
| `SpriteIndex.IndexKeepsLast` | from_json_to_frame.py:119-127 | a file whose digest no later readable file shares keeps its name in the table: the last file with a digest wins |
| `SpriteIndex.IndexSound` | from_json_to_frame.py:119-129 | every stored name is a readable sprite file whose digest is its key |
| `SpriteIndex.IndexResolves` | from_json_to_frame.py:119-130 | reopening the file stored under a digest gives a picture with that digest |
| `StableSort.Insert` | image_finder.py:145-149 | inserting adds exactly the one element |
| `StableSort.SortBy` | image_finder.py:145-149 | sorting keeps the length and the multiset of elements |
| `StableSort.SortBySorted` | image_finder.py:145-149 | under a strict total order on keys, the result is ordered by key |
| `StableSort.SortByStable` | image_finder.py:145-149 | elements with equal keys keep their input order |
| `StableSort.SortBySortedInput` | image_finder.py:145-149 | an already ordered sequence is left as it is |
| `StableSort.InsertSorted` | from_json_to_frame.py:141 | inserting into an ordered sequence keeps it ordered |
| `StableSort.InsertHaving` | from_json_to_frame.py:141 | insertion places the new element after every element with its key |
| `StableSort.HavingAppend` | from_json_to_frame.py:141 | selecting the elements of one key distributes over concatenation |
| `Frames.SortParts` | from_json_to_frame.py:141 | the parts are layered all of them, none added or dropped (their order is stated by `Frames.SortPartsOrder`) |
| `Frames.Fit` | from_json_to_frame.py:163-167 | the resize is refused with a ValueError exactly when the target has a zero side and differs from the crop; otherwise the result has exactly the target size, and a crop that already has it is kept as it is |
| `Frames.PartImage` | from_json_to_frame.py:155-167 | a part image has exactly the part's size, and the only way it fails is the refused resize |
| `Frames.PartImageRefused` | from_json_to_frame.py:155-167 | the resize is refused exactly when the part's size has a zero side and differs from its source box, with the box's sides swapped for a quarter-turn label |
| `Frames.Layer` | from_json_to_frame.py:142-174 | an unresolved part leaves the canvas as it is, and the canvas keeps its size |
| `Frames.LayerRaises` | from_json_to_frame.py:142-174 | one pass of the loop raises exactly on a resolving part whose sprite does not reopen or whose image cannot be made, and with that part's exception |
| `Frames.Compose` | from_json_to_frame.py:141-174 | layering parts keeps the canvas size |
| `Frames.BuildFrame` | from_json_to_frame.py:133-176 | within the typed capture, a missing frame key is the only KeyError; a rendered frame has exactly the size of its bounds |
| `Frames.BuildFrameErrors` | from_json_to_frame.py:133-176 | within the typed capture, besides the missing frame key, `build_frame` raises only for an unreadable sprite or a refused resize |
| `Frames.RendererRaises` | from_json_to_frame.py:152-167 | with the loop's own steps, a resolving part raises exactly when its sprite does not reopen or its resize is refused, with the matching exception |
| `Frames.RendererErrors` | from_json_to_frame.py:141-174 | with the loop's own steps, layering parts raises nothing but an unreadable sprite or a refused resize |
| `Frames.ZeroSizeWitness` | from_json_to_frame.py:163-167 | a part whose 3 x 5 box must become 0 x 5 stops the frame with the refused resize, while the same part at 3 x 5 renders |
| `Frames.ResolvedParts` | from_json_to_frame.py:142-150 | the parts kept are all resolvable |
| `Frames.SkippedPartsIgnored` | from_json_to_frame.py:142-150 | parts with an empty or unknown lower-cased hash play no role in the result |
| `Frames.UnresolvedFrameIsBlank` | from_json_to_frame.py:139-150 | a frame none of whose parts resolves is its transparent canvas |
| `Frames.ComposeFailsAtFirstRaise` | from_json_to_frame.py:141-174 | rendering fails exactly when some part raises, and then with the exception of the first part that does |
| `Frames.ComposeLast` | from_json_to_frame.py:141-174 | one more part is layered over the result of the earlier ones |
| `Frames.LayerPastes` | from_json_to_frame.py:169-174 | a resolving part whose image is made is pasted at its position minus the origin of the frame's bounds |
| `Frames.ComposeLastPaste` | from_json_to_frame.py:141-174 | a frame whose last part resolves is the earlier parts' result with that part pasted on top |
| `Frames.LastOpaqueWins` | from_json_to_frame.py:141-174 | at an overlap the later part's opaque pixel is what the frame shows |
| `Frames.LastClearKeeps` | from_json_to_frame.py:141-174 | where the later part is transparent or absent, the earlier parts' pixel stays |
| `Frames.SortPartsOrder` | from_json_to_frame.py:141 | parts are layered in ascending order, stably, none lost or repeated |
| `Frames.BuildFrameAsWritten` | from_json_to_frame.py:133-176 | as written, a missing key is the only KeyError, and a frame that renders at all is the blank canvas of its bounds |
| `Frames.AsWrittenDrawsNothing` | from_json_to_frame.py:160 | as written, a frame renders only when no part resolves, and then it is the blank canvas |
| `Frames.ArityWitness` | from_json_to_frame.py:160 | a one-part frame raises as written, while the two-argument call renders it |
| `Frames.DurationDefault` | from_json_to_frame.py:186 | a frame without `duration_ms` gets 40 ms; one with it gets its stored value, whatever it is |
| `Frames.Export` | from_json_to_frame.py:191-203 | a GIF is written only for a non-empty list, from all frames in order with their durations, looping, disposal 2 and transparency 0 |
| `Frames.RenderCapture` | from_json_to_frame.py:179-188 | it succeeds exactly when every key's frame builds, and then gives one image and one duration per key in key order; otherwise it stops at the first failing key with its error |
| `Frames.RenderAndExport` | from_json_to_frame.py:179-205 | when every frame builds, a GIF plan exists exactly when there is a key, and its frames are the built frames in key order, each with its own frame's duration |
| `Spritesheet.MaxWidth` | from_json_to_spritesheet.py:21 | the widest frame's width: no frame is wider and some frame has it |
| `Spritesheet.MaxHeight` | from_json_to_spritesheet.py:22 | the tallest frame's height: no frame is taller and some frame has it |
| `Spritesheet.FrameX` | from_json_to_spritesheet.py:34-35 | a frame's left edge keeps the padding from its cell's left edge, and its right edge the padding from the cell's right edge |
| `Spritesheet.FrameY` | from_json_to_spritesheet.py:36 | a frame's top and bottom keep at least the padding from the sheet's top and bottom |
| `Spritesheet.Sheet` | from_json_to_spritesheet.py:30-37 | after any number of pastes the sheet is still cell_width·n by cell_height |
| `Spritesheet.BuildSpritesheet` | from_json_to_spritesheet.py:17-40 | nothing is made exactly for an empty list; the sheet is one cell high |
| `Spritesheet.BuildDefaultSpritesheet` | from_json_to_spritesheet.py:8-16 | with the default `CELL_PADDING` of 10, nothing is made exactly for an empty list, and the sheet is the tallest frame plus 20 high |
| `Spritesheet.SheetSize` | from_json_to_spritesheet.py:21-30 | the sheet is cell_width·n wide and cell_height high, each cell the largest frame plus twice the padding |
| `Spritesheet.CellOriginIsProduct` | from_json_to_spritesheet.py:34 | cell idx starts at idx·cell_width |
| `Spritesheet.CellsApart` | from_json_to_spritesheet.py:32-34 | cells follow each other left to right without overlap |
| `Spritesheet.InsideCell` | from_json_to_spritesheet.py:24-37 | every frame lies in the padded interior of its own cell, and so inside the sheet |
| `Spritesheet.Centred` | from_json_to_spritesheet.py:35-36 | within its cell a frame's left and right margins, and its top and bottom margins, differ by at most one |
| `Spritesheet.NoOverlap` | from_json_to_spritesheet.py:32-37 | an earlier frame ends left of where a later frame starts |
| `Spritesheet.WorkedExample` | from_json_to_spritesheet.py:21-37 | one 4 x 4 frame with padding 1 gives a 6 x 6 sheet with the frame at (1, 1) |
| `Spritesheet.SheetUntouched` | from_json_to_spritesheet.py:30-37 | a position no pasted frame covers is still transparent |
| `Spritesheet.OnlyOneCovers` | from_json_to_spritesheet.py:32-37 | no other frame reaches into a frame's rectangle |
| `Spritesheet.ClearBeforeFrame` | from_json_to_spritesheet.py:30-37 | a frame's rectangle is still transparent when its turn to be pasted comes |
| `Spritesheet.FramePasted` | from_json_to_spritesheet.py:37 | pasting a frame writes its pixels onto a transparent area |
| `Spritesheet.LaterFrameKeeps` | from_json_to_spritesheet.py:32-37 | pasting a later frame leaves an earlier frame's pixels alone |
| `Spritesheet.SheetShowsFrame` | from_json_to_spritesheet.py:32-37 | after any later frames are pasted, each frame appears at its place as pasted onto transparency |
| `Spritesheet.SheetContents` | from_json_to_spritesheet.py:30-37 | the finished sheet shows every frame in its place, crisp frames exactly |
| `Spritesheet.SheetBackground` | from_json_to_spritesheet.py:30-37 | everything outside the frames' rectangles stays transparent |
| `Text.Upper` | image_finder.py:124 | upper-casing keeps the length and maps each character on its own |
| `Text.Lower` | from_json_to_frame.py:143 | lower-casing keeps the length and maps each character on its own |
| `Text.UpperIdempotent` | image_finder.py:124 | upper-casing twice is upper-casing once |
| `Text.Strip` | image_finder.py:159 | stripping never lengthens the text and leaves no whitespace at either end |
| `Text.StripSpan` | image_finder.py:159 | the input is its leading whitespace, then the result, then only whitespace: nothing but whitespace is removed |
| `Text.HexValue` | image_finder.py:112 | a hex digit is worth less than 16 |
| `Text.HexDigitOf` | image_finder.py:139 | a value below 16 is written as the upper-case digit of that value |
| `Text.HexDigitOfValue` | image_finder.py:112 | reading an upper-case hex digit and writing its value gives the digit back |
| `NaturalSort.SplitDigits` | image_finder.py:115 | splitting on digit runs yields an odd number of parts |
| `NaturalSort.SplitDigitsJoin` | image_finder.py:115 | the parts joined give the name back |
| `NaturalSort.SplitDigitsAlternates` | image_finder.py:115 | text runs without digits at even positions, non-empty digit runs at odd positions, and the digit runs are maximal |
| `NaturalSort.NaturalKey` | image_finder.py:114-115 | the key has a string at every even index and an int at every odd index, with an odd length |
| `NaturalSort.KeysAlign` | image_finder.py:114-115 | two keys never compare an int with a string, and every key starts and ends with a string |
| `NaturalSort.NaturalOrderExample` | image_finder.py:114-115 | "a2" has key ["a", 2, ""] and sorts before "a10", although as plain strings "a10" comes first |
| `NaturalSort.LexLess` | image_finder.py:149 | as in Python's list comparison, a proper prefix sorts first, and nothing sorts before its own prefix |
| `NaturalSort.KeyLess` | image_finder.py:149 | the same prefix rules hold for natural keys |
| `NaturalSort.LexStrictTotal` | image_finder.py:149 | list comparison over a strict total order is one |
| `NaturalSort.KeyStrictTotal` | image_finder.py:149 | natural keys are strictly totally ordered, so sorting by them is well defined |
| `ImageFinder.HexNumber` | image_finder.py:112 | one hex digit is below 16 and two are below 256 |
| `ImageFinder.ParseHex` | image_finder.py:112 | `int(s, 16)` succeeds exactly on a non-empty string of hex digits |
| `ImageFinder.StripHashes` | image_finder.py:111 | the result is a suffix of the input that does not start with `#` |
| `ImageFinder.StripHashesOnlyHashes` | image_finder.py:111 | everything removed is a `#`, so with `StripHashes` the result is the input without its leading `#` characters |
| `ImageFinder.HexToRgb` | image_finder.py:110-112 | every component read is in [0, 255] |
| `ImageFinder.HexToRgbDefined` | image_finder.py:110-112 | a code is read exactly when at least five characters follow the `#`s and the first six are hex digits |
| `ImageFinder.HexToRgbDigits` | image_finder.py:110-112 | for six hex digits, component i is 16·d[2i] + d[2i+1] |
| `ImageFinder.RgbToHex` | image_finder.py:139 | a colour's written form is six upper-case hex digits |
| `ImageFinder.RgbHexRoundTrip` | image_finder.py:110-112 | writing a colour and reading it back gives the colour |
| `ImageFinder.HexRgbRoundTrip` | image_finder.py:110-112 | reading six upper-case hex digits and writing the colour gives the text back |
| `ImageFinder.KeepHex` | image_finder.py:124 | the kept characters are hex digits, no more than the input's, and a single character is kept exactly when it is a hex digit (with `KeepHexAppend` this fixes the filter) |
| `ImageFinder.KeepHexAppend` | image_finder.py:124 | filtering distributes over concatenation |
| `ImageFinder.Sanitise` | image_finder.py:124 | the sanitised text is the first six kept hex digits (or all of them if fewer), each upper-cased |
| `ImageFinder.SanitiseExample` | image_finder.py:124 | `#a-b` becomes `AB`: lower-case digits are kept and upper-cased, the rest dropped |
| `ImageFinder.SanitiseFixpoint` | image_finder.py:124-125 | the sanitiser leaves a text alone exactly when it has at most six digits, none lower-case |
| `ImageFinder.SanitiseIdempotent` | image_finder.py:124-125 | sanitising a sanitised text changes nothing |
| `ImageFinder.SanitiseAppend` | image_finder.py:124 | typing more never changes the digits already accepted, and after six digits more typing is ignored |
| `ImageFinder.FormatAndUpdate` | image_finder.py:120-130 | the field holds the sanitised text, and the swatch shows `#` plus it exactly when it has six digits |
| `ImageFinder.FormatStable` | image_finder.py:123-125 | formatting an already formatted field again changes nothing |
| `ImageFinder.SwatchIsColour` | image_finder.py:126-127 | a shown swatch is a colour the parser reads, whose written form is the field's text |
| `ImageFinder.StartSearch` | image_finder.py:152-163 | no folder and a primary of length other than 6 are refused; a secondary is refused exactly when non-empty after stripping and not 6 long; a six-character code `hex_to_rgb` cannot read is the uncaught ValueError; the search starts exactly when neither happens, with the parsed colours |
| `ImageFinder.SanitisedSearchStarts` | image_finder.py:152-163 | with sanitised fields, the search starts exactly when a folder is chosen, the primary has six digits and the secondary none or six |
| `ImageFinder.RgbOf` | image_finder.py:184 | converting to RGB keeps each colour channel in [0, 255] |
| `ImageFinder.RecordOf` | image_finder.py:188-189 | a record's area is width times height |
| `ImageFinder.FindImages` | image_finder.py:176-192 | there are no more results than files, and every result's area is width times height |
| `ImageFinder.FindImagesExact` | image_finder.py:176-192 | a record is a result exactly when some listed file is scanned, opens, holds the primary colour and holds the secondary one if given |
| `ImageFinder.PrimaryOnly` | image_finder.py:185-187 | without a secondary colour, a picture matches exactly when some pixel has the primary colour |
| `ImageFinder.OrderingOf` | image_finder.py:143-149 | an option naming neither size ordering sorts by name, and one naming the larger-first text never sorts smaller-first |
| `ImageFinder.OrderingOfOptions` | image_finder.py:87 | each of the three menu options selects its own ordering |
| `ImageFinder.OnSortChange` | image_finder.py:141-150 | the result is a permutation of the found list |
| `ImageFinder.OnSortChangeOrdered` | image_finder.py:141-149 | the result is ordered by area descending, by area ascending, or by natural name key, as the option says |
| `ImageFinder.OnSortChangeStable` | image_finder.py:144-149 | records with equal sort keys keep their relative order |
| `ImageFinder.OnSortChangeIdempotent` | image_finder.py:141-149 | choosing the same option twice changes nothing the second time |
| `ImageFinder.LargerStrictTotal` | image_finder.py:145 | "larger area first" is a strict total order |
| `ImageFinder.SmallerStrictTotal` | image_finder.py:147 | "smaller area first" is a strict total order |
| `ImageFinder.Search` | image_finder.py:152-174 | a search fails exactly when its checks fail, and otherwise returns a permutation of the matching files |
| `ImageFinder.SearchSound` | image_finder.py:170-174 | every search result is a matching file of the listing |

## Left out

- File and image I/O is not modelled: `os.listdir`, `Image.open`, `.save`, `os.makedirs` and the JSON load. A directory is a list of entries, each a name and the picture it opens to, or none when opening raises. The capture is a value.
- SHA-256 itself is a parameter. Only the byte stream it is given is modelled.
- The blending of partially transparent pixels by a masked paste is a parameter. Alpha 0 and alpha 255 are modelled exactly.
- NEAREST resampling is a parameter. Only the size of its output is modelled.
- Images are converted to RGBA as they are opened. The other image modes and the mode conversion are not modelled, except for dropping alpha in `convert('RGB')`.
- `int(round(...))` on float positions is not modelled. Positions are integers.
- The JSON accessors are simplified. The capture is typed, so every exception that comes from its shape is not represented:
  - a missing or null `sprite_hash.value` or `transform.name` is the empty string;
  - a missing `bounds` or `parts` key of a frame (from_json_to_frame.py:135-136), `order` of a part (line 141), `width`, `height`, `x` or `y` of the bounds (lines 139 and 170-171), or `source`, `size` or `absolute_position` of a part, would raise KeyError;
  - a `sprite_hash` or `transform` stored as JSON null would raise AttributeError (lines 142-143 and 159), because `.get`'s default only covers a missing key;
  - `order` values of types Python cannot compare with each other would raise TypeError inside `sorted` (line 141).
- Negative widths and heights are not represented: `Rect` and `Part` hold them as natural numbers. In the script a negative `bounds` size raises in `Image.new` (from_json_to_frame.py:139), a `source` box with right < left or bottom < top raises in `crop` (line 156), and a negative `size` raises in `resize` (line 165).
- `Frames.DurationOf`: a `duration_ms` stored as JSON null is not represented. `.get("duration_ms", 40)` returns None for it, not 40 (from_json_to_frame.py:186).
- File paths are file names. `os.path.join` and `os.path.basename` are not modelled.
- Case mapping, digits and whitespace use ASCII only. Python's Unicode-wide `upper`, `lower`, `isdigit` and `strip` are not modelled.
- `ImageFinder.ParseHex`: `int(s, 16)` also accepts surrounding whitespace, a sign, a `0x` prefix and underscores between digits. The model rejects these. The sanitiser never produces them. An unsanitised code using them would be refused by the model where Python reads it.
- `ImageFinder.OnSortChange` does not model the redraw that follows the sort.
- The thumbnail grid, message boxes, folder and colour dialogs, and every other tkinter widget are not modelled.
- The re-entrancy flag of `_format_and_update` is not modelled. The model is the effect of one edit on the field.
- `print` messages are not modelled.
- GIF encoding is not modelled. The export is the plan of what is written: the frames, the durations, and the loop, disposal and transparency values.
- `Spritesheet.BuildSpritesheet` takes the trimmed frame images directly. `FrameData`, trimming and `assemble_frames` are imported from code that is not part of this model.
- Negative padding is not modelled. `padding` is a natural number.
- `animation_tool_gui.py` is not part of this model.

## Findings

| source | as written | input that shows it | evidently intended | confidence | as-written member | corrected member |
|---|---|---|---|---|---|---|
| from_json_to_frame.py:160 | `apply_transform(crop, transform_name, 0, 0)` passes four arguments, but the function defined at line 31 takes two. So every part whose hash resolves and whose sprite opens raises a TypeError. | A frame with one part whose lower-cased hash is in the index and whose file opens | `apply_transform(crop, transform_name)`: transform the crop and go on to resize and paste | high; not executed | `Frames.AsWrittenDrawsNothing`, `Frames.ArityWitness` (via `Frames.BuildFrameAsWritten`) | `Frames.BuildFrame`, with `Frames.LastOpaqueWins` and `Frames.RenderCapture` built on it |
