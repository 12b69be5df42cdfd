# Image cropper and CSV-to-bookmarks serialiser in Dafny

This project models two pieces of the Tools-collection repository and proves
properties of the models.

**The image cropper** (`image-cropper/app.js`). A crop rectangle
`(x, y, width, height)` lives inside the pixel bounds of a loaded image. It
changes in three ways:

- when an image loads, it is centred at the size the width and height fields ask for;
- when the user types into the four numeric fields;
- through a pointer state machine: idle, moving the body, or resizing by one
  of four corner handles.

Every pointer-move recomputes the crop from the snapshot taken at
pointer-down. Hit-testing decides which handle is grabbed and which cursor is
shown. The state is `Cropper.App`: the image bounds, the crop, the gesture,
and the raw text of the four fields. There is one pure transition per browser
event, and `Cropper.Inv` is the class invariant. The invariant says:

- `1 <= width <= W` and `0 <= x <= W - width`, and likewise for height and y;
- the same holds for any live snapshot.

**The bookmark serialiser** (`src/2026-01-26_2/csv2bookmarks.py`):

- `to_url` strips a link and adds `https://` when it has no known scheme.
- `bookmarks_html` writes a Netscape bookmark file. The file has:
  - seven header lines;
  - one entry line per distinct non-empty (url, title) pair, in the order
    each pair first appears;
  - two closing lines.
- The entries are produced by a loop over the rows with a `seen` set.
  `Sequences.CollectDistinct` models that loop. `Sequences.Dedup` is its
  reference definition.
- `html.escape` is modelled by `HtmlEscape.Escape`. Its partner
  `HtmlEscape.Unescape` proves that escaping loses nothing.
- `Bookmarks.ParseEntryLine` and `Bookmarks.ParseFolderLine` read lines
  back: each entry line and the folder line decode back to the values
  written into them. This is proved of single lines of the list, before
  the join.

Modules, in dependency order:

| module | concern |
|---|---|
| `Optional` | `Option<T>` (JavaScript `null`, Python `None`) |
| `Decimal` | integer to decimal text and back |
| `Trimming` | trimming with a caller-chosen notion of whitespace |
| `Geometry` | `Bounds`, `Rect`, `Valid`, `clamp`, `Math.round`, load-time crop |
| `NumberInput` | `Number(text)`, `parseOptionalNumber`, `Number(text) \|\| 1` |
| `HitTest` | handles, grab windows, `getHandleAtPoint`, `pointInCrop` |
| `Gesture` | the gesture snapshot, move and corner-resize |
| `Cropper` | the whole cropper state, its event handlers and invariants |
| `HtmlEscape` | `html.escape` and its inverse |
| `Sequences` | keep-and-map filtering, first-occurrence deduplication, the `seen` loop |
| `Bookmarks` | `to_url`, the file's lines, the joined text, reading entries back |

Numbers from JavaScript are treated as exact values, not IEEE doubles:

- Crop fields are `int`, and pointer coordinates are `real`.
- `Math.round(r)` is `(r + 0.5).Floor`.
- `Math.floor(n / 2)` is Dafny's Euclidean `/`, which agrees with it because the divisor is positive.

The text of a field is kept as a string. `Number(text)` is modelled on its
decimal-integer subset:

- blank text reads as 0;
- `[+-]digits` reads as its value;
- `[+-]Infinity` reads as an infinity;
- anything else reads as NaN.

The field rewrite (`syncInputsFromCrop`) writes each value's decimal text.
`Cropper.SyncFieldsRoundTrip` proves that this text reads back as the value.

`loadImageFile` (app.js:82-98) leaves `state.interaction` as it is, so
`Cropper.LoadImage` does too. The consequence is listed under Findings.

## Model

| member | source | states |
|---|---|---|
| Geometry.Clamp | image-cropper/app.js:403-405 | The result lies in `[lo, hi]` when that range is non-empty. A value already in range is returned unchanged. Below the range gives `lo`, above gives `hi`. An empty range gives `hi`, because `Math.min` is applied last. |
| Geometry.ClampIdempotent | image-cropper/app.js:403-405 | Clamping twice is clamping once. |
| Geometry.ClampNarrowing | image-cropper/app.js:129-133 | Clamping to `[lo, hi]` and then to `[lo, hi']` with `hi' <= hi` equals one clamp to `[lo, hi']`. The two-step position clamp of the field edit is therefore a single clamp. |
| Geometry.Round | image-cropper/app.js:198 | `Math.round` gives the integer within half a unit, with halves rounding up. |
| Geometry.RoundShift | image-cropper/app.js:197-206 | Rounding `start + delta` for an integer `start` equals `start` plus the rounded delta. |
| Geometry.InitialCrop | image-cropper/app.js:87-98 | The load-time crop takes the requested size clamped to `[1, W]` and `[1, H]`. For a non-empty image it is valid and centred: the right margin exceeds the left by 0 or 1 pixel, and likewise vertically. |
| Geometry.InitialCropCentred | image-cropper/app.js:89-98 | The centring offset `floor((W - w) / 2)` already lies in `[0, W - w]`, so the outer clamp does nothing. |
| Geometry.InitialCropExample | image-cropper/app.js:87-98 | An 800x600 image with a requested 300x200 crop starts at (250, 200, 300, 200). |
| NumberInput.ToNumber | image-cropper/app.js:87-88 | `Number(text)` reads blank text as 0 and a signed decimal integer (after trimming) as its value, and gives a finite number for no other text. It is `+Infinity` exactly for trimmed `Infinity` or `+Infinity`, and `-Infinity` exactly for trimmed `-Infinity`. |
| NumberInput.NonNumericIsUnset | image-cropper/app.js:149-153 | Text that is not a signed decimal integer once trimmed, such as `abc` or `12px`, makes `parseOptionalNumber` return `null`, so the field counts as unset. |
| NumberInput.ParseOptionalNumber | image-cropper/app.js:149-153 | Whitespace-only text gives `null`. A result that is not `null` is the finite value `Number` reads. Any other text that `Number` reads as finite gives that value. |
| NumberInput.ParseIntToString | image-cropper/app.js:149-153 | The decimal text of any integer reads back as that integer, both through `Number` and through `parseOptionalNumber`. |
| NumberInput.RequestedSize | image-cropper/app.js:87-88 | `Number(text) \|\| 1` once clamped: zero and NaN ask for 1, a non-zero finite value asks for itself, `+Infinity` asks for the whole side, and `-Infinity` for 1. |
| HitTest.FirstNear | image-cropper/app.js:264-270 | The first handle in trial order whose grab window holds the point, with every earlier handle out of reach. `None` exactly when no handle is in reach. |
| HitTest.HandleAt | image-cropper/app.js:255-271 | Handle `NE` is returned exactly when the point is within 12 pixels (Chebyshev) of the NE corner and not of the NW corner. The same pattern holds for the other handles, in the order NW, NE, SW, SE. `None` is returned exactly when no corner is in reach. |
| HitTest.InCrop | image-cropper/app.js:300-307 | For a rectangle of non-negative size, a point is on it, edges included, exactly when it lies at most half the width from the centre horizontally and at most half the height vertically. |
| HitTest.ThresholdIsTwelve | image-cropper/app.js:262 | `HANDLE_SIZE * 1.2` is 12. |
| HitTest.CornersInCrop | image-cropper/app.js:300-307 | Every corner of a rectangle of non-negative size lies on it, because `pointInCrop` includes all four edges. |
| HitTest.LargeCropHandlesUnambiguous | image-cropper/app.js:255-271 | On a crop more than 24 pixels wide and tall, a handle is returned exactly when its own grab window holds the point, so the order of trial does not matter. |
| HitTest.CornerIsGrabbed | image-cropper/app.js:255-271 | A point exactly on a corner always grabs some handle. |
| Gesture.MoveCrop | image-cropper/app.js:193-212 | A move keeps the size. x becomes the snapshot x plus the rounded pointer displacement, clamped to `[0, W - w]`; y likewise. A valid crop stays valid. |
| Gesture.MoveHasNoDrift | image-cropper/app.js:193-212 | Moves within one gesture do not accumulate: a second move gives the same crop as moving there directly. |
| Gesture.MoveBackToStart | image-cropper/app.js:193-212 | Returning the pointer to where it went down restores the snapshot crop. |
| Gesture.MoveExample | image-cropper/app.js:193-212 | (10, 10, 100, 100) in 800x600 dragged by (-50, -50) ends at (0, 0, 100, 100). |
| Gesture.ResizeCrop | image-cropper/app.js:214-253 | The edges away from the dragged corner stay fixed. A dragged edge follows the rounded pointer, stops one pixel short of the opposite edge, and stops at the image border: 0 for a left or top edge, the image width or height for a right or bottom edge. From a valid snapshot the result is valid. |
| Gesture.ResizeExample | image-cropper/app.js:214-253 | Dragging NW of (100, 100, 200, 200) to (450, 120) gives (299, 120, 1, 180). |
| Cropper.SyncFieldsRoundTrip | image-cropper/app.js:317-322 | Each rewritten field reads back through `parseOptionalNumber` as the crop value it shows. |
| Cropper.LoadImage | image-cropper/app.js:82-101 | Loading sets the image and clamps the requested size. For a non-empty image the crop is valid and centred. The fields are rewritten and the gesture in progress is left untouched. |
| Cropper.LoadAsksForFields | image-cropper/app.js:87-98 | When the width and height fields show whole numbers that fit the image, the loaded crop has exactly that size and is centred. |
| Cropper.UpdateCropFromInputs | image-cropper/app.js:110-147 | With no image the edit does nothing. Otherwise: each size is the parsed field (or the current value when unset) clamped to `[1, side]`; each position is one clamp to `[0, side - size]`; a valid crop results for a non-empty image. The fields are rewritten only when all four parse, and are left alone otherwise. |
| Cropper.UnsetFieldKeepsValue | image-cropper/app.js:119-133 | An unset size field keeps the current size. An unset position field whose size field is also unset keeps the current position. |
| Cropper.UpdateCropFromInputsIdempotent | image-cropper/app.js:110-147 | Applying the fields a second time changes nothing. |
| Cropper.FieldsMatchingCropKeepIt | image-cropper/app.js:119-138 | Fields that each read as the crop's own value, or are unset, leave a valid crop where it is. |
| Cropper.ClearWidthKeepsCrop | image-cropper/app.js:110-147 | While the fields show the crop, clearing the width field changes only that field's text. |
| Cropper.TypeXAfterClearingWidth | image-cropper/app.js:110-147 | With the width field cleared, typing `n` into x moves the crop to `n` clamped to `[0, W - w]` and does not refill the cleared field. |
| Cropper.UnsetFieldSurvivesEdit | image-cropper/app.js:110-147 | Over a run of two events, clearing width and then typing into x moves the crop, and the width field stays empty. |
| Cropper.PointerDownAt | image-cropper/app.js:155-173 | With no image, or a press on neither a handle nor the crop, nothing changes. A handle in reach starts a resize of that handle; otherwise a press on the crop starts a move. Either way the snapshot is the current pointer and crop. |
| Cropper.HandleBeatsBody | image-cropper/app.js:159-166 | A press both on the crop body and within a handle's reach resizes rather than moves. |
| Cropper.PointerMoveTo | image-cropper/app.js:175-185 | With no gesture or no image, a move does nothing. During a move or resize the crop is recomputed from the snapshot, and the fields show the new crop. |
| Cropper.EndInteraction | image-cropper/app.js:187-191 | Pointer-up and pointer-cancel return to idle and keep the crop and fields. |
| Cropper.CursorAt | image-cropper/app.js:273-298 | With no image the cursor is the default. Otherwise it is the NW-SE diagonal exactly when the NW or SE handle is grabbed there, the NE-SW diagonal exactly when NE or SW is, and the move cursor exactly when no handle is in reach and the point is on the crop. This holds whether or not a gesture is live. |
| Cropper.CursorMatchesPointerDown | image-cropper/app.js:273-298 | When idle, the cursor predicts a press. Default means a press does nothing. The move cursor means a press starts a move. The NW-SE diagonal means a press resizes NW or SE, and the NE-SW diagonal means NE or SW. |
| Cropper.ClickChangesNothing | image-cropper/app.js:155-191 | Pressing and releasing without a move between leaves an idle cropper exactly as it was. |
| Cropper.MoveByNothingKeepsCrop | image-cropper/app.js:175-212 | Grabbing the crop body and moving by nothing leaves a valid crop where it was. |
| Cropper.GrabbedCornerJumpsToPointer | image-cropper/app.js:175-253 | The dragged corner goes to the pointer, not to the grabbed corner plus the displacement. Grabbing the south-east handle a few pixels off the corner and moving by nothing snaps that corner to the rounded pointer, with the top-left corner fixed. |
| Cropper.StepPreservesInv | image-cropper/app.js:82-253 | Every event keeps the invariant, except a load that arrives while a gesture is live. |
| Cropper.RunPreservesInv | image-cropper/app.js:82-253 | A run of events in which images load only while idle keeps the invariant. |
| Cropper.LoadDuringResizeBreaksCrop | image-cropper/app.js:80-98 | The state after four events is a crop of negative size that is not valid for the image. The events are: load 800x600 with fields asking for 200x200; press the south-east handle; load 50x50; move to (10, 10). |
| Cropper.ResizeAfterLoadingSmaller | image-cropper/app.js:175-185 | A pointer-move after the smaller load resizes from the stale snapshot, giving (300, 200, -250, -150). |
| Cropper.LoadImageDiscardingGesture | image-cropper/app.js:82-101 | The corrected load: same image, crop and fields as the load as written, with the gesture ended. It keeps the invariant. |
| Cropper.StepIntended | image-cropper/app.js:82-101 | With loads ending the gesture, a load always leaves the cropper idle, and every event, loads of non-empty images included, keeps the invariant. |
| Cropper.RunIntendedPreservesInv | image-cropper/app.js:82-253 | When loads end the gesture, every run of events with non-empty images keeps the invariant. |
| HtmlEscape.Escape | src/2026-01-26_2/csv2bookmarks.py:42-43 | `html.escape` output holds no `<`, `>`, `"` or `'`, is at least as long as its input, and leaves text without special characters unchanged. |
| HtmlEscape.UnescapeEscape | src/2026-01-26_2/csv2bookmarks.py:42-43 | Unescaping escaped text gives the text back. |
| HtmlEscape.EscapeInjective | src/2026-01-26_2/csv2bookmarks.py:42-43 | Different texts escape differently. |
| Bookmarks.ToUrl | src/2026-01-26_2/csv2bookmarks.py:8-15 | The result is empty exactly when the stripped input is. Otherwise it starts with one of the five schemes. It is stripped. Stripped text that already has a scheme is kept as it is. Any other non-empty stripped text gets `https://` in front. |
| Bookmarks.ToUrlOfBlank | src/2026-01-26_2/csv2bookmarks.py:9-11 | Missing, empty and whitespace-only input gives the empty url. |
| Bookmarks.ToUrlIdempotent | src/2026-01-26_2/csv2bookmarks.py:8-15 | `to_url(to_url(s)) == to_url(s)`. |
| Bookmarks.ValidPairsMembers | src/2026-01-26_2/csv2bookmarks.py:31-36 | A pair is kept exactly when some row normalises to it and neither its url nor its title is empty. |
| Bookmarks.EntriesMembers | src/2026-01-26_2/csv2bookmarks.py:30-39 | A pair gets an entry exactly when some row normalises to it and it has a non-empty url and title. No pair gets two entries. |
| Sequences.DedupKeepsFirstOccurrenceOrder | src/2026-01-26_2/csv2bookmarks.py:30-44 | Entries come in the order of each pair's first occurrence. |
| Sequences.DedupSize | src/2026-01-26_2/csv2bookmarks.py:30-44 | There are as many entries as distinct kept pairs. |
| Sequences.CollectDistinct | src/2026-01-26_2/csv2bookmarks.py:30-44 | The `seen`-set loop emits one line for each element of the reference deduplication, in the same order. |
| Bookmarks.FolderLineRoundTrip | src/2026-01-26_2/csv2bookmarks.py:19-28 | The header's folder line, stamped twice with `now`, reads back as the folder name it was written for, so any name survives escaping. |
| Bookmarks.ParseEntryLineRoundTrip | src/2026-01-26_2/csv2bookmarks.py:41-44 | Every entry line reads back as the (url, title) pair it was written from. |
| Bookmarks.EntryLinesReadBack | src/2026-01-26_2/csv2bookmarks.py:41-44 | The entry lines read back, in order, as the pairs they were written from. |
| Bookmarks.BookmarkLines | src/2026-01-26_2/csv2bookmarks.py:18-46 | The lines are the seven header lines, one entry line per distinct valid pair in first-occurrence order, and the two closing lines. That makes 9 plus the number of distinct valid pairs. |
| Bookmarks.JoinAppend | src/2026-01-26_2/csv2bookmarks.py:47 | Joining two non-empty runs of lines puts exactly one line break between them. |
| Bookmarks.BookmarksHtml | src/2026-01-26_2/csv2bookmarks.py:18-47 | The file is the lines joined by `\n`. It starts with the joined header and a line break, and ends with `</DL><p>\n</DL><p>`. |
| Decimal.DigitsRoundTrip | image-cropper/app.js:317-322 | Reading back the decimal digits written for `n` gives `n`. |
| Decimal.IntToStringInjective | image-cropper/app.js:317-322 | Different crop values are shown as different field text. |
| Trimming.TrimIsInfix | src/2026-01-26_2/csv2bookmarks.py:9 | Stripping keeps a contiguous part of the text and removes only whitespace on either side of it. |
| Trimming.TrimEmptyIff | image-cropper/app.js:150 | Trimming gives the empty string exactly when the text is all whitespace. |
| Trimming.TrimIdempotent | src/2026-01-26_2/csv2bookmarks.py:9 | Stripping twice is stripping once. |

## Left out

- DOM wiring, file reading and image decoding (`image-cropper/app.js:1-11, 36-86, 99-108`) are browser I/O. A load is the event `Load(bounds)`.
- `getPointerPos` (`image-cropper/app.js:309-315`) scales viewport coordinates to canvas coordinates. Pointer events arrive already in image pixels.
- `render`, `drawHandle`, `downloadCroppedImage` and `setStatus` (`image-cropper/app.js:324-401`) draw and export. They only read the crop.
- Floating point is not modelled. JavaScript numbers are exact integers and reals.
- NumberInput.ToNumber: `Number` is modelled on decimal integers, blanks and `Infinity` only. Fractions, exponents, and hexadecimal, octal (`0o17`) and binary literals read as NaN here, although `Number` would give a value. Because of this, a field holding `10.5` counts as unset in the model when edited, and at load it asks for 1 pixel, where JavaScript asks for 10.5.
- Geometry.Positive: an image with a zero side is not a case the invariant covers. `LoadImage` and `StepPreservesInv` state their facts for non-empty images only. That every loaded image has at least one pixel each way is an assumption of the model; the loader accepts any `image/` type, SVG included.
- The character classes follow ECMAScript whitespace (`IsJsSpace`) and Python's `str.isspace` (`IsPySpace`), as code-point sets.
- `convert_csv_to_bookmarks` (`src/2026-01-26_2/csv2bookmarks.py:50-66`) reads the CSV file and writes the HTML file. It is file I/O. A row is a pair of optional cells.
- `time.time()` becomes the parameter `now` (whole seconds).
- The other scripts (`clone_github.py`, `up_to_date.py`, `merge_images.py`) are wrappers around subprocesses, HTTP and PIL.
- Bookmarks.BookmarksHtml: a title, a url or a folder name with an interior line break produces a line that spans several physical lines of the text, since `to_url` strips only the ends. The model states its facts about the list of lines before joining. It proves nothing about reading the joined text back, or about telling entry lines apart from header lines in it.

## Findings

| source | as written | input that shows it | evidently intended | confidence | as-written member | corrected member |
|---|---|---|---|---|---|---|
| image-cropper/app.js:80-98 | Loading an image replaces the crop but leaves `state.interaction` as it is. A pointer-move after the load then resizes from the old snapshot, against the new, smaller bounds. | 800x600 image, fields 200x200, press the south-east handle at (500, 400), load a 50x50 image, move to (10, 10). The crop becomes (300, 200, -250, -150). | Loading ends any gesture in progress, because the snapshot belongs to the previous image, so the crop stays valid. | medium, not executed | Cropper.LoadDuringResizeBreaksCrop | Cropper.RunIntendedPreservesInv |
