# Video privacy masker — verified model of the masking core

The component lets a user load a video, drag rectangles ("masks") over the
regions to hide, and pick one effect for all of them: a box blur, a
pixelation or an opaque black fill. It then plays the video through an
off-screen canvas. On each frame it draws the frame, applies every mask in
list order and records the canvas. This project models that core in Dafny
and proves what it does:

- `Pixels` (pixels.dfy) fixes the RGBA8 row-major layout of an `ImageData`
  buffer. It covers offsets `(y * iw + x) * 4 + c` and their inverse, row and
  column sums, the store into a `Uint8ClampedArray`, and writing one pixel.
- `BoxBlur` (blur.dfy) is the two-pass box blur. Each pass is a method over
  arrays, proved equal to a function on sequences, with range and
  fixed-point lemmas about that function.
- `Pixelate` (pixelate.dfy) is the block-mean pixelation, modelled the same
  way, with idempotence and block uniformity.
- `Canvas` (canvas.dfy) covers one frame: `getImageData`, `putImageData` and
  `fillRect` by their effect on the frame's pixels. `applyMaskEffect` is a
  method proved equal to `Masked`, the effect of one mask, and
  `processFrame` is a method proved equal to `MaskedAll`, the left fold of
  `Masked` over the mask list.
- `Masks` (masks.dfy) holds mask rectangles, the drag normalisation, the
  size test on mouse-up, and `splice` removal.
- `Editor` (editor.dfy) models the component's state and its event handlers
  as a step function, with the invariant every reachable state keeps.
- `Recording` (recording.dfy) models the decisions `processVideo` takes
  around the recorder:
  - whether to start;
  - which container type to ask for;
  - how the result is tagged;
  - when it is re-recorded as MP4;
  - which data chunks are kept.
- `Strings` (strings.dfy) and `TimeFormat` (format_time.dfy) model the
  `MM:SS` display of playback time.
- `Wrappers` (wrappers.dfy) holds the `Option` type.

Storing `sum / count` into a `Uint8ClampedArray` rounds half to even
(`RoundHalfEven`). `Math.floor(sum / count)` in the pixelation is a floor
(`/` on non-negative integers). The blur radius is the intensity. The
pixelation block size is `max(2, floor(intensity))`.

The model also shows that the conversion path cannot deliver. The
re-recording of a WebM result asks `MediaRecorder` for
`video/mp4;codecs=h264,aac`, and it runs only when that very type was
just reported unsupported (`Recording.ConversionAsksForUnsupportedType`).
The `MediaRecorder` constructor refuses an unsupported type, so no
processed video is ever set on that path (see "## Findings").

## Model

| member | source | states |
|---|---|---|
| `Pixels.RoundHalfEven` | components/video-privacy-masker.tsx:403-406 | storing `sum / count` into a clamped byte array gives the nearest integer to the quotient, ties to the even one (the same store at 431-434) |
| `Pixels.RoundedMeanBetween` | components/video-privacy-masker.tsx:403-406 | the stored mean of samples that all lie between m and M also lies between m and M (also for 431-434) |
| `Pixels.FloorBracket` | components/video-privacy-masker.tsx:470-473 | `Math.floor(sum / count)` is the whole number q with `count * q <= sum < count * (q + 1)` |
| `Pixels.FlooredMeanBetween` | components/video-privacy-masker.tsx:470-473 | the floored mean of samples between m and M lies between m and M |
| `Pixels.WritePixel` | components/video-privacy-masker.tsx:479-482 | writing four channels at pixel (x, y) changes exactly that pixel's four bytes and nothing else (the same four writes at 403-406 and 431-434) |
| `Pixels.Encode` | components/video-privacy-masker.tsx:393 | the offset `(y * iw + x) * 4 + c` (also at 402, 421, 430, 460, 478) decodes back to exactly that pixel and channel |
| `Pixels.Decode` | components/video-privacy-masker.tsx:393 | every offset of an `iw`-wide RGBA buffer is `(y * iw + x) * 4 + c` for an in-region pixel and channel |
| `BoxBlur.Window` | components/video-privacy-masker.tsx:392 | the horizontal sample window is `[max(0, v - r), min(n, v + r + 1))`, non-empty and containing v; the vertical one at 420 is the same |
| `BoxBlur.HorizontalMean` | components/video-privacy-masker.tsx:385-406 | channel c of pixel (x, y) after the horizontal pass is the window's sum divided by its size, rounded to the nearest integer |
| `BoxBlur.VerticalMean` | components/video-privacy-masker.tsx:413-434 | channel c of pixel (x, y) after the vertical pass is the column window's sum over the temporary buffer divided by its size, rounded to the nearest integer |
| `BoxBlur.HorizontalPassSeq` | components/video-privacy-masker.tsx:383-408 | the temporary buffer has as many samples as the region |
| `BoxBlur.VerticalPassSeq` | components/video-privacy-masker.tsx:411-436 | the vertical pass produces as many samples as it reads |
| `BoxBlur.BlurSeq` | components/video-privacy-masker.tsx:373-436 | the blurred region has as many samples as the region read |
| `BoxBlur.SumRowWindow` | components/video-privacy-masker.tsx:392-399 | the four running sums of the horizontal sampling loop are the row sums of the window |
| `BoxBlur.SumColumnWindow` | components/video-privacy-masker.tsx:420-427 | the four running sums of the vertical sampling loop are the column sums of the window, over the temporary buffer |
| `BoxBlur.HorizontalPixel` | components/video-privacy-masker.tsx:385-406 | the four values written for pixel (x, y) are that pixel's entries of the horizontal pass |
| `BoxBlur.VerticalPixel` | components/video-privacy-masker.tsx:413-434 | the four values written for pixel (x, y) are that pixel's entries of the vertical pass |
| `BoxBlur.HorizontalPass` | components/video-privacy-masker.tsx:383-408 | the temporary buffer ends as the horizontal pass of the region, each sample the rounded mean of its row window |
| `BoxBlur.VerticalPass` | components/video-privacy-masker.tsx:411-436 | the region buffer ends as the vertical pass of the temporary buffer, each sample the rounded mean of its column window |
| `BoxBlur.HorizontalPassAt` | components/video-privacy-masker.tsx:383-408 | each sample of the horizontal pass is the mean of its row window |
| `BoxBlur.VerticalPassAt` | components/video-privacy-masker.tsx:411-436 | each sample of the vertical pass is the mean of its column window |
| `BoxBlur.HorizontalMeanWithin` | components/video-privacy-masker.tsx:392-406 | the horizontal mean lies within the range of the samples of its window |
| `BoxBlur.VerticalMeanWithin` | components/video-privacy-masker.tsx:420-434 | the vertical mean lies within the range of the samples of its window |
| `BoxBlur.Blur` | components/video-privacy-masker.tsx:373-436 | the region buffer ends as the vertical pass of the horizontal pass of its old contents |
| `BoxBlur.BlurWithinRange` | components/video-privacy-masker.tsx:373-436 | blurring never leaves the range of the input: if a channel lies between m and M everywhere, it does so afterwards |
| `BoxBlur.BlurUniform` | components/video-privacy-masker.tsx:373-436 | a region of one colour is a fixed point of the blur |
| `Pixelate.PixelSize` | components/video-privacy-masker.tsx:441 | the block size is the intensity, but at least 2 |
| `Pixelate.BlockStart` | components/video-privacy-masker.tsx:448-449 | the block containing v starts at the largest multiple of the block size not above v |
| `Pixelate.BlockSum` | components/video-privacy-masker.tsx:458-467 | a block's channel sum is never negative |
| `Pixelate.BlockSumBounds` | components/video-privacy-masker.tsx:458-467 | a block's sum lies between m and M times its clipped sample count |
| `Pixelate.BlockMean` | components/video-privacy-masker.tsx:451-473 | the block colour is the floored mean: count times it is at most the block's sum, and count times its successor exceeds the sum |
| `Pixelate.BlockMeanIs` | components/video-privacy-masker.tsx:451-473 | the block colour is the floored quotient of the block's sum by its clipped count, which is never 0 |
| `Pixelate.SumBlock` | components/video-privacy-masker.tsx:451-467 | the sampling loops, guarded by `dy < p && y + dy < ih` and `dx < p && x + dx < iw`, return the four block sums and the clipped count |
| `Pixelate.FillBlock` | components/video-privacy-masker.tsx:476-484 | the fill loop paints exactly the pixels of the clipped block with the block colour and leaves all others |
| `Pixelate.PixelateSeq` | components/video-privacy-masker.tsx:448-486 | the pixelated region has as many samples as the region read |
| `Pixelate.Pixelate` | components/video-privacy-masker.tsx:441-486 | the region buffer ends as the pixelation of its old contents with block size `max(2, intensity)` |
| `Pixelate.PixelateAt` | components/video-privacy-masker.tsx:448-486 | every pixel of the result carries the floored mean of the block it lies in |
| `Pixelate.BlockMeanWithin` | components/video-privacy-masker.tsx:451-473 | the block colour lies within the range of the block's samples |
| `Pixelate.PixelateIdempotent` | components/video-privacy-masker.tsx:441-486 | pixelating an already pixelated region with the same block size changes nothing |
| `Pixelate.PixelateBlockUniform` | components/video-privacy-masker.tsx:476-484 | two pixels of the same block end with the same colour |
| `Canvas.Ceil` | components/video-privacy-masker.tsx:370-371 | `Math.ceil` gives the least whole number not below its argument |
| `Canvas.RoundOut` | components/video-privacy-masker.tsx:368-371 | the integer area starts at or before the mask's corner and is at least as large as the mask, by less than one pixel |
| `Canvas.GetImageData` | components/video-privacy-masker.tsx:375 | the region read from an area holds `w * h * 4` samples, whatever part of the area lies off the canvas (the same read at 444) |
| `Canvas.GetImageDataAt` | components/video-privacy-masker.tsx:375 | each sample read from the area is the frame's sample at the shifted position, or 0 off the canvas (the same read at 444) |
| `Canvas.PutImageData` | components/video-privacy-masker.tsx:438 | writing a region back keeps the frame's size (the same write at 488) |
| `Canvas.PutImageDataAt` | components/video-privacy-masker.tsx:438 | writing a region back changes exactly the on-canvas pixels of the area, to the region's samples (the same write at 488) |
| `Canvas.FillBlack` | components/video-privacy-masker.tsx:491-492 | the black fill keeps the frame's size |
| `Canvas.FillBlackAt` | components/video-privacy-masker.tsx:491-492 | the black fill makes the area's on-canvas pixels opaque black and leaves the rest |
| `Canvas.PutGetRoundTrip` | components/video-privacy-masker.tsx:375-438 | writing back an unchanged region leaves the frame as it was |
| `Canvas.GetPutRoundTrip` | components/video-privacy-masker.tsx:375-438 | reading back an on-canvas area just written gives the region written |
| `Canvas.FillBlackIdempotent` | components/video-privacy-masker.tsx:491-492 | filling the same area black twice is the same as once |
| `Canvas.Masked` | components/video-privacy-masker.tsx:361-494 | one mask applied to a frame gives a frame of the same size |
| `Canvas.MaskedOutsideUnchanged` | components/video-privacy-masker.tsx:361-494 | no effect changes a pixel outside the mask's rounded area |
| `Canvas.BlurMaskUniform` | components/video-privacy-masker.tsx:373-438 | a blur mask over a uniformly coloured on-canvas area leaves the frame as it was |
| `Canvas.PixelateMaskTwice` | components/video-privacy-masker.tsx:439-488 | applying the same pixelate mask twice is the same as once |
| `Canvas.ApplyMaskEffect` | components/video-privacy-masker.tsx:361-494 | one mask on a frame: read the rounded area, filter it in a buffer and write it back, or fill it black |
| `Canvas.MaskedAll` | components/video-privacy-masker.tsx:328-330 | applying the masks in list order gives a frame of the same size |
| `Canvas.MaskedAllAppend` | components/video-privacy-masker.tsx:328-330 | applying a list of masks is applying its first part and then the rest to that result |
| `Canvas.SolidMasksExact` | components/video-privacy-masker.tsx:328-330 | with solid masks an output pixel is opaque black exactly when some mask covers it, and otherwise the drawn frame's pixel |
| `Canvas.ProcessFrame` | components/video-privacy-masker.tsx:323-331 | the frame after `processFrame` is every mask applied in list order, each to the previous result |
| `Masks.DragRect` | components/video-privacy-masker.tsx:136-144 | the dragged rectangle's corner is the smaller coordinate and its far edge the larger, so its size is never negative |
| `Masks.AppendIfLarge` | components/video-privacy-masker.tsx:150-156 | mouse-up appends the drawn rectangle exactly when it is wider and taller than 5, else the list is unchanged |
| `Masks.AppendKeepsAdmitted` | components/video-privacy-masker.tsx:150-156 | the list keeps holding only rectangles larger than 5 by 5 |
| `Masks.SpliceStart` | components/video-privacy-masker.tsx:499 | `splice(index, 1)` picks position `index` clamped to the list, counting a negative index from the end |
| `Masks.RemoveAt` | components/video-privacy-masker.tsx:497-502 | removing a mask drops exactly the entry at the splice position and keeps the others in order; an out-of-range index changes nothing |
| `Masks.RemoveAtValidIndex` | components/video-privacy-masker.tsx:497-502 | for an index of the list, the result is the list without that entry, as a multiset the old list minus that mask |
| `Masks.RemoveKeepsAdmitted` | components/video-privacy-masker.tsx:497-502 | removing a mask keeps every remaining mask larger than 5 by 5 |
| `Editor.Initial` | components/video-privacy-masker.tsx:15-26 | the editor starts with blur at intensity 10, no masks, muted, nothing drawn or processed |
| `Editor.OnMouseDown` | components/video-privacy-masker.tsx:108-122 | mouse-down starts a drag at the cursor with an empty rectangle and changes nothing else |
| `Editor.OnMouseMove` | components/video-privacy-masker.tsx:125-144 | while drawing, only the current rectangle changes, to the one spanned from the drag start; otherwise nothing changes |
| `Editor.OnMouseUp` | components/video-privacy-masker.tsx:150-160 | mouse-up ends the drag and appends the current rectangle exactly when it is larger than 5 by 5; nothing else changes |
| `Editor.OnFileChange` | components/video-privacy-masker.tsx:33-53 | a `video/*` file sets the file, URL and mute and clears masks and the processed video, and nothing else; anything else changes nothing |
| `Editor.OnRecordingStopped` | components/video-privacy-masker.tsx:288-313 | when recording (or its conversion) produced a video, its fresh URL becomes the processed video and nothing else changes; otherwise nothing changes |
| `Editor.Step` | components/video-privacy-masker.tsx:497-508 | clear-all empties the list and clear-one removes by splice, changing nothing else; choosing an effect or an intensity sets only that field; only a file change touches the video file and URL, and only it and the end of a recording touch the processed video |
| `Editor.ProcessingOutcome` | components/video-privacy-masker.tsx:226-313 | processing ends with a new processed video when the browser supports an MP4 type, and otherwise leaves the editor state as it was |
| `Editor.InitialValid` | components/video-privacy-masker.tsx:20-21 | the initial state satisfies the editor invariant |
| `Editor.StepPreservesValid` | components/video-privacy-masker.tsx:606-611 | every event keeps all stored masks larger than 5 by 5, the intensity in the slider's range 1..20 and the drawn rectangle non-negative |
| `Editor.RunPreservesValid` | components/video-privacy-masker.tsx:150-160 | after any sequence of events from a valid state, the state is still valid |
| `Editor.DragThenRelease` | components/video-privacy-masker.tsx:108-160 | down at a, move to b, up stores exactly the normalised rectangle when it is larger than 5 by 5, and nothing otherwise |
| `Recording.FirstSupported` | components/video-privacy-masker.tsx:226-230 | the reference rule: the first candidate the browser supports, or the fallback when none is |
| `Recording.ChooseMimeType` | components/video-privacy-masker.tsx:226-230 | H.264/AAC MP4 if supported, else plain MP4 if supported, else WebM, each case exactly when its condition holds |
| `Recording.ChooseIsFirstSupported` | components/video-privacy-masker.tsx:226-230 | the ternary chain is the first-supported rule over the two MP4 types with WebM as the fallback |
| `Recording.BlobType` | components/video-privacy-masker.tsx:247 | the recording is tagged `video/mp4` exactly when its type starts with `video/mp4`, else `video/webm` |
| `Recording.ConversionExactlyForWebm` | components/video-privacy-masker.tsx:255 | re-recording happens exactly when the blob was tagged WebM, that is, when neither MP4 type is supported |
| `Recording.ConversionAsksForUnsupportedType` | components/video-privacy-masker.tsx:277-280 | whenever the re-recording runs, it asks for a type the first choice found unsupported |
| `Recording.ProcessedVideoAsWritten` | components/video-privacy-masker.tsx:247-313 | a processed video exists exactly when the recording was MP4 or the re-recording's type is supported, and it is always MP4 |
| `Recording.ConversionNeverDelivers` | components/video-privacy-masker.tsx:255-292 | with the chosen type, there is no processed video exactly when conversion runs |
| `Recording.NoVideoWithoutMp4` | components/video-privacy-masker.tsx:255-292 | a browser that supports no MP4 type gets no processed video |
| `Recording.ProcessedVideo` | components/video-privacy-masker.tsx:247-313 | as intended, every finished recording yields a video: MP4 when it can be had, else the recording with its own tag |
| `Recording.ProcessedVideoDelivers` | components/video-privacy-masker.tsx:247-313 | with the chosen type the intended outcome always delivers, MP4 exactly when an MP4 type is supported, and agrees with the code whenever the code delivers |
| `Recording.StartProcessing` | components/video-privacy-masker.tsx:198 | processing does nothing without masks and otherwise records with the first supported type |
| `Recording.OnDataAvailable` | components/video-privacy-masker.tsx:239-243 | a delivered chunk is kept exactly when it is not empty |
| `Recording.Collect` | components/video-privacy-masker.tsx:239-243 | the kept chunks are never more than those delivered, and none is empty |
| `Recording.CollectKeepsBytes` | components/video-privacy-masker.tsx:248 | every kept chunk is non-empty, and the blob built from the kept chunks holds all delivered bytes in order |
| `Strings.PadStartZero` | components/video-privacy-masker.tsx:765 | `padStart(2, "0")` makes the string at least as long as the width by adding only zeros in front, and keeps the string as the suffix |
| `Strings.NatToString` | components/video-privacy-masker.tsx:765 | `toString` of a whole number is a non-empty string of digits without a leading zero |
| `Strings.NatToStringValue` | components/video-privacy-masker.tsx:765 | reading the digits back gives the number |
| `Strings.PadStartZeroValue` | components/video-privacy-masker.tsx:765 | padding with zeros keeps the value |
| `TimeFormat.Minutes` | components/video-privacy-masker.tsx:763 | the minutes are the whole minutes elapsed |
| `TimeFormat.SecondsPart` | components/video-privacy-masker.tsx:764 | the seconds are in 0..59, the whole seconds past those minutes |
| `TimeFormat.Clock` | components/video-privacy-masker.tsx:765 | the display is the minutes padded to at least two digits, ':' and the seconds in exactly two digits |
| `TimeFormat.ClockReadsBack` | components/video-privacy-masker.tsx:765 | both numbers read back from either side of the ':' |
| `TimeFormat.FormatTime` | components/video-privacy-masker.tsx:762-766 | the display has ':' third from the end and is exactly `MM:SS`, five characters, below 100 minutes |
| `TimeFormat.FormatTimeReadsBack` | components/video-privacy-masker.tsx:762-766 | the display reads back as whole minutes and seconds, and the position lies within the second it names |

## Findings

| source | as written | input that shows it | evidently intended | confidence | as-written member | corrected member |
|---|---|---|---|---|---|---|
| components/video-privacy-masker.tsx:255-292 | when neither MP4 type is supported, the WebM recording is re-recorded by a `MediaRecorder` built for `video/mp4;codecs=h264,aac`, the type just reported unsupported; the constructor refuses it and no processed video is set | a browser whose `isTypeSupported` rejects both MP4 types (`Recording.NoVideoWithoutMp4`) | every finished recording yields a processed video, MP4 when the browser can record MP4 and otherwise the WebM recording itself | medium, not executed | `Recording.ProcessedVideoAsWritten` | `Recording.ProcessedVideo` |

## Left out

- Canvas and media host calls are modelled by their documented effect on pixels, or not at all. This covers `drawImage`, `captureStream`, `MediaRecorder`, `requestAnimationFrame` and object URLs. The frame a drawn video gives is an input.
- Premultiplied alpha: `getImageData` after `putImageData` may round colour channels of non-opaque pixels. Frames are treated as stored exactly.
- The recording loop, the playback events that drive it, and the asynchronous WebM-to-MP4 re-recording are left out (timers, promises, browser codecs). Only the decisions around them are modelled (`Recording`).
- Recording bitrate and audio track forwarding are left out; they do not change the modelled state. Object URLs are opaque strings supplied with the event that creates them, and revoking one (lines 40-42, 250-252) is not modelled: after a failed conversion the editor still holds the earlier processed URL, which the page has revoked.
- Play, pause, mute, seek and download handlers, the overlay drawing and the UI layout are left out; they do not touch masks or pixels.
- Mapping client coordinates to canvas coordinates (`getBoundingClientRect` scaling) is left out; mouse positions arrive in canvas pixels.
- Recording.StartProcessing: models only the empty-mask guard; the missing-element and missing-context guards of the same line depend on the page and are left out.
- TimeFormat.FormatTime: requires a non-negative finite position. A `NaN` duration (which would display `NaN:NaN`) and negative positions are left out.
- BoxBlur.Blur: the intensity is a whole number (the slider's step is 1); a fractional radius is not modelled.
- Pixels.RoundHalfEven: models `sum / count` as the exact rational quotient. The floating-point division of such small integers gives the same rounding.
- Canvas.Masked: requires the mask to be larger than 5 by 5, as every mask in the list is (`Editor.StepPreservesValid`). Masks of negative or zero size never reach it.
- Canvas.RoundOut: rounds the corner down and the size up separately. Its ensures states honestly that the area can end before the mask's far edge. A column or row only partly covered there stays unmasked.
- JavaScript numbers are modelled as unbounded reals and integers. No overflow is reachable for canvas sizes.
- Recording.ProcessedVideoAsWritten: takes the `MediaRecorder` constructor to refuse exactly the types `isTypeSupported` rejects; the asynchronous playback that feeds the re-recording is not modelled.
- Recording.Concat: the blob is modelled as the concatenation of its chunks' bytes; blob types and encodings are not modelled.
